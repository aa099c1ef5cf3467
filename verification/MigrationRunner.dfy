/**
 * packages/coworker-utils/src/migration-runner.ts: forward-only migrations by file kind. A
 * registered function is known by a number; run says what it does to a value, None when it throws.
 */
module MigrationRunner {
  import opened StableSort
  import opened Wrappers

  datatype Migration = Migration(from: int, to: int, fn: nat)

  datatype Result<V> = Migrated(value: V, version: int) | NoMigration(version: int) | Threw(version: int)

  ghost predicate Forward(list: seq<Migration>) {
    forall i :: 0 <= i < |list| ==> list[i].from < list[i].to
  }

  predicate SourceAfter(a: Migration, b: Migration) {
    a.from > b.from
  }

  /** The highest target; None without migrations. */
  function Latest(list: seq<Migration>): (v: Option<int>)
    ensures v.None? <==> list == []
    ensures v.Some? ==> forall i :: 0 <= i < |list| ==> list[i].to <= v.value
    ensures v.Some? ==> exists i :: 0 <= i < |list| && list[i].to == v.value
  {
    if list == [] then None
    else
      var k := |list| - 1;
      var best := Latest(list[..k]);
      if best.None? || list[k].to > best.value then Some(list[k].to) else best
  }

  /** The first migration from a version. */
  function Find(list: seq<Migration>, version: int): (m: Option<Migration>)
    ensures m.Some? ==> m.value in list && m.value.from == version
    ensures m.None? ==> forall i :: 0 <= i < |list| ==> list[i].from != version
  {
    if list == [] then None
    else if list[0].from == version then Some(list[0])
    else Find(list[1..], version)
  }

  function MigrateFrom<V>(
    list: seq<Migration>, current: int, target: int, value: V, run: (nat, V) -> Option<V>): Result<V>
    requires Forward(list)
    decreases target - current
  {
    if current >= target then Migrated(value, current)
    else
      match Find(list, current)
      case None => NoMigration(current)
      case Some(m) =>
        match run(m.fn, value)
        case None => Threw(current)
        case Some(v) => MigrateFrom(list, m.to, target, v, run)
  }

  /** Data at or past the latest version, or of a kind without migrations, stays as it is. */
  function MigrateOf<V>(list: seq<Migration>, from: int, value: V, run: (nat, V) -> Option<V>): Result<V>
    requires Forward(list)
  {
    match Latest(list)
    case None => Migrated(value, from)
    case Some(target) => MigrateFrom(list, from, target, value, run)
  }

  // ---- Where it stops ----

  lemma {:induction false} StopsAtTarget<V>(
    list: seq<Migration>, current: int, target: int, value: V, run: (nat, V) -> Option<V>)
    requires Forward(list) && current <= target && forall i :: 0 <= i < |list| ==> list[i].to <= target
    ensures var r := MigrateFrom(list, current, target, value, run);
            if r.Migrated? then r.version == target else current <= r.version < target
    decreases target - current
  {
    if current < target && Find(list, current).Some? {
      var m := Find(list, current).value;
      var v := run(m.fn, value);
      if v.Some? { StopsAtTarget(list, m.to, target, v.value, run); }
    }
  }

  /** A successful migration ends on the latest version, never past it. */
  lemma MigratesToLatest<V>(list: seq<Migration>, from: int, value: V, run: (nat, V) -> Option<V>)
    requires Forward(list) && list != [] && from <= Latest(list).value
    ensures var r := MigrateOf(list, from, value, run); r.Migrated? ==> r.version == Latest(list).value
  {
    StopsAtTarget(list, from, Latest(list).value, value, run);
  }

  /** Data stays as it is, at its version, exactly when no migration leads beyond it. */
  lemma UpToDateIff<V>(list: seq<Migration>, from: int, value: V, run: (nat, V) -> Option<V>)
    requires Forward(list)
    ensures MigrateOf(list, from, value, run) == Migrated(value, from) <==>
              forall i :: 0 <= i < |list| ==> list[i].to <= from
  {
    if list != [] && Latest(list).value > from { MigratesToLatest(list, from, value, run); }
  }

  // ---- Chains ----

  predicate IsChain(ms: seq<Migration>, list: seq<Migration>, from: int, to: int) {
    if ms == [] then from == to
    else ms[0] in list && ms[0].from == from && IsChain(ms[1..], list, ms[0].to, to)
  }

  function Compose<V>(ms: seq<Migration>, value: V, run: (nat, V) -> Option<V>): Option<V> {
    if ms == [] then Some(value)
    else
      match run(ms[0].fn, value)
      case None => None
      case Some(v) => Compose(ms[1..], v, run)
  }

  /** The chain migrate walks: from each version the first migration registered for it. */
  predicate IsFirstChain(ms: seq<Migration>, list: seq<Migration>, from: int, to: int) {
    if ms == [] then from == to
    else Find(list, from) == Some(ms[0]) && IsFirstChain(ms[1..], list, ms[0].to, to)
  }

  lemma {:induction false} MigratedHasChain<V>(
    list: seq<Migration>, current: int, target: int, value: V, run: (nat, V) -> Option<V>) returns (ms: seq<Migration>)
    requires Forward(list) && current <= target && forall i :: 0 <= i < |list| ==> list[i].to <= target
    requires MigrateFrom(list, current, target, value, run).Migrated?
    ensures IsFirstChain(ms, list, current, target)
    ensures Compose(ms, value, run) == Some(MigrateFrom(list, current, target, value, run).value)
    decreases target - current
  {
    ms := [];
    if current < target {
      var m := Find(list, current).value;
      var rest := MigratedHasChain(list, m.to, target, run(m.fn, value).value, run);
      ms := [m] + rest;
      assert ms[1..] == rest;
    }
  }

  lemma {:induction false} ChainMigrates<V>(
    list: seq<Migration>, ms: seq<Migration>, current: int, target: int, value: V, run: (nat, V) -> Option<V>)
    requires Forward(list) && forall i :: 0 <= i < |list| ==> list[i].to <= target
    requires IsFirstChain(ms, list, current, target) && Compose(ms, value, run).Some?
    ensures MigrateFrom(list, current, target, value, run) == Migrated(Compose(ms, value, run).value, target)
    decreases |ms|
  {
    if ms != [] {
      assert current < ms[0].to <= target;
      ChainMigrates(list, ms[1..], ms[0].to, target, run(ms[0].fn, value).value, run);
    }
  }

  /** For every list: migrate succeeds exactly along the chain of first registrations, and gives what it composes to. */
  lemma MigratesIffFirstChain<V(!new)>(list: seq<Migration>, from: int, value: V, run: (nat, V) -> Option<V>, v: V)
    requires Forward(list) && list != [] && from <= Latest(list).value
    ensures MigrateOf(list, from, value, run) == Migrated(v, Latest(list).value)
            <==> exists ms :: IsFirstChain(ms, list, from, Latest(list).value) && Compose(ms, value, run) == Some(v)
  {
    var target := Latest(list).value;
    if MigrateOf(list, from, value, run) == Migrated(v, target) {
      var ms := MigratedHasChain(list, from, target, value, run);
    }
    if exists ms :: IsFirstChain(ms, list, from, target) && Compose(ms, value, run) == Some(v) {
      var ms :| IsFirstChain(ms, list, from, target) && Compose(ms, value, run) == Some(v);
      ChainMigrates(list, ms, from, target, value, run);
    }
  }

  lemma {:induction false} FailedHasChain<V>(
    list: seq<Migration>, current: int, target: int, value: V, run: (nat, V) -> Option<V>) returns (ms: seq<Migration>)
    requires Forward(list) && current <= target && forall i :: 0 <= i < |list| ==> list[i].to <= target
    requires !MigrateFrom(list, current, target, value, run).Migrated?
    ensures var r := MigrateFrom(list, current, target, value, run);
            && IsFirstChain(ms, list, current, r.version) && Compose(ms, value, run).Some?
            && Stuck(list, r, Compose(ms, value, run).value, run)
    decreases target - current
  {
    ms := [];
    if Find(list, current).Some? {
      var m := Find(list, current).value;
      var v := run(m.fn, value);
      if v.Some? {
        var rest := FailedHasChain(list, m.to, target, v.value, run);
        ms := [m] + rest;
        assert ms[1..] == rest;
      }
    }
  }

  /** No migration goes on from there, or the first that does throws on what the data has become. */
  predicate Stuck<V>(list: seq<Migration>, r: Result<V>, value: V, run: (nat, V) -> Option<V>) {
    match r
    case Migrated(_, _) => false
    case NoMigration(version) => forall i :: 0 <= i < |list| ==> list[i].from != version
    case Threw(version) => Find(list, version).Some? && run(Find(list, version).value.fn, value).None?
  }

  /** When it fails, it has followed the chain of first registrations to a version short of the latest and is stuck. */
  lemma FailsWhereStuck<V>(list: seq<Migration>, from: int, value: V, run: (nat, V) -> Option<V>)
    returns (ms: seq<Migration>)
    requires Forward(list) && !MigrateOf(list, from, value, run).Migrated?
    ensures var r := MigrateOf(list, from, value, run);
            && list != [] && from <= r.version < Latest(list).value
            && IsFirstChain(ms, list, from, r.version) && Compose(ms, value, run).Some?
            && Stuck(list, r, Compose(ms, value, run).value, run)
  {
    StopsAtTarget(list, from, Latest(list).value, value, run);
    ms := FailedHasChain(list, from, Latest(list).value, value, run);
  }

  ghost predicate UniqueSources(list: seq<Migration>) {
    forall a, b :: a in list && b in list && a.from == b.from ==> a == b
  }

  lemma FindIs(list: seq<Migration>, m: Migration)
    requires UniqueSources(list) && m in list
    ensures Find(list, m.from) == Some(m)
  {}

  /** With one migration a version every chain is that one. */
  lemma {:induction false} FirstChainIff(ms: seq<Migration>, list: seq<Migration>, from: int, to: int)
    requires UniqueSources(list)
    ensures IsFirstChain(ms, list, from, to) <==> IsChain(ms, list, from, to)
  {
    if ms != [] {
      if ms[0] in list { FindIs(list, ms[0]); }
      FirstChainIff(ms[1..], list, ms[0].to, to);
    }
  }

  /** With one migration a source version, migrate succeeds exactly along a registered chain to the latest version. */
  lemma MigratesIffChain<V(!new)>(list: seq<Migration>, from: int, value: V, run: (nat, V) -> Option<V>, v: V)
    requires Forward(list) && UniqueSources(list) && list != [] && from <= Latest(list).value
    ensures MigrateOf(list, from, value, run) == Migrated(v, Latest(list).value)
            <==> exists ms :: IsChain(ms, list, from, Latest(list).value) && Compose(ms, value, run) == Some(v)
  {
    MigratesIffFirstChain(list, from, value, run, v);
    forall ms
      ensures IsFirstChain(ms, list, from, Latest(list).value) <==> IsChain(ms, list, from, Latest(list).value)
    {
      FirstChainIff(ms, list, from, Latest(list).value);
    }
  }

  /** Without that a chain may be there and not be taken: the first registered leads to a dead end. */
  lemma DeadEndDespiteChain(value: int, run: (nat, int) -> Option<int>)
    requires run(0, value).Some?
    ensures var list := [Migration(1, 2, 0), Migration(1, 3, 1)];
      && Forward(list) && IsChain([Migration(1, 3, 1)], list, 1, 3)
      && MigrateOf(list, 1, value, run) == NoMigration(2)
  {
    var list := [Migration(1, 2, 0), Migration(1, 3, 1)];
    assert IsChain([Migration(1, 3, 1)][1..], list, 3, 3);
    assert Latest(list) == Some(3);
    assert Find(list, 1) == Some(list[0]) && Find(list, 2).None?;
  }

  // ---- Registration order ----

  /** Two lists with the same migrations. */
  ghost predicate SameMigrations(a: seq<Migration>, b: seq<Migration>) {
    forall m :: m in a <==> m in b
  }

  lemma FindSame(a: seq<Migration>, b: seq<Migration>, version: int)
    requires SameMigrations(a, b) && UniqueSources(a)
    ensures Find(a, version) == Find(b, version)
  {
    if Find(a, version).Some? { FindIs(b, Find(a, version).value); }
    if Find(b, version).Some? { FindIs(a, Find(b, version).value); }
  }

  lemma LatestAtMost(a: seq<Migration>, b: seq<Migration>)
    requires SameMigrations(a, b) && a != []
    ensures Latest(b).Some? && Latest(a).value <= Latest(b).value
  {
    var i :| 0 <= i < |a| && a[i].to == Latest(a).value;
    assert a[i] in b;
  }

  lemma LatestSame(a: seq<Migration>, b: seq<Migration>)
    requires SameMigrations(a, b)
    ensures Latest(a) == Latest(b)
  {
    if a != [] { LatestAtMost(a, b); }
    if b != [] { LatestAtMost(b, a); }
  }

  lemma {:induction false} MigrateSame<V>(
    a: seq<Migration>, b: seq<Migration>, current: int, target: int, value: V, run: (nat, V) -> Option<V>)
    requires Forward(a) && Forward(b) && SameMigrations(a, b) && UniqueSources(a)
    ensures MigrateFrom(a, current, target, value, run) == MigrateFrom(b, current, target, value, run)
    decreases target - current
  {
    if current < target {
      FindSame(a, b, current);
      if Find(a, current).Some? {
        var m := Find(a, current).value;
        var v := run(m.fn, value);
        if v.Some? { MigrateSame(a, b, m.to, target, v.value, run); }
      }
    }
  }

  /** The order of registration does not matter. */
  lemma OrderIrrelevant<V>(a: seq<Migration>, b: seq<Migration>, from: int, value: V, run: (nat, V) -> Option<V>)
    requires Forward(a) && Forward(b) && SameMigrations(a, b) && UniqueSources(a)
    ensures MigrateOf(a, from, value, run) == MigrateOf(b, from, value, run)
  {
    LatestSame(a, b);
    if a != [] { MigrateSame(a, b, from, Latest(a).value, value, run); }
  }

  // ---- The runner ----

  lemma SourceIsWeakOrder()
    ensures WeakOrder(SourceAfter)
  {}

  lemma {:induction false} FindLast(s: seq<Migration>, m: Migration, version: int)
    ensures Find(s + [m], version)
         == if Find(s, version).Some? then Find(s, version) else if m.from == version then Some(m) else None
  {
    if s != [] {
      assert (s + [m])[1..] == s[1..] + [m];
      FindLast(s[1..], m, version);
    }
  }

  lemma {:induction false} FindIsFirstTie(s: seq<Migration>, x: Migration)
    ensures Find(s, x.from) == if Ties(s, x, SourceAfter) == [] then None else Some(Ties(s, x, SourceAfter)[0])
  {
    if s != [] {
      var k := |s| - 1;
      FindIsFirstTie(s[..k], x);
      FindLast(s[..k], s[k], x.from);
      assert s == s[..k] + [s[k]];
    }
  }

  /** In the sorted list find still meets the first registered. */
  lemma FindSorted(list: seq<Migration>, version: int)
    ensures Find(Sort(list, SourceAfter), version) == Find(list, version)
  {
    SourceIsWeakOrder();
    SortIsStable(list, SourceAfter);
    var x := Migration(version, version, 0);
    FindIsFirstTie(list, x);
    FindIsFirstTie(Sort(list, SourceAfter), x);
  }

  lemma SortedSame(list: seq<Migration>)
    ensures SameMigrations(Sort(list, SourceAfter), list)
  {
    SourceIsWeakOrder();
    forall m ensures m in Sort(list, SourceAfter) <==> m in list { SortKeeps(list, SourceAfter, m); }
  }

  lemma SortedForward(list: seq<Migration>)
    requires Forward(list)
    ensures Forward(Sort(list, SourceAfter))
  {
    SortedSame(list);
    var sorted := Sort(list, SourceAfter);
    forall i | 0 <= i < |sorted| ensures sorted[i].from < sorted[i].to { assert sorted[i] in list; }
  }

  lemma {:induction false} MigrateSorted<V>(
    list: seq<Migration>, current: int, target: int, value: V, run: (nat, V) -> Option<V>)
    requires Forward(list) && Forward(Sort(list, SourceAfter))
    ensures MigrateFrom(Sort(list, SourceAfter), current, target, value, run)
         == MigrateFrom(list, current, target, value, run)
    decreases target - current
  {
    FindSorted(list, current);
    if current < target && Find(list, current).Some? {
      var m := Find(list, current).value;
      var v := run(m.fn, value);
      if v.Some? { MigrateSorted(list, m.to, target, v.value, run); }
    }
  }

  /** The list kept for what was registered. */
  ghost predicate ListOk(list: seq<Migration>, all: seq<Migration>) {
    Forward(all) && all != [] && list == Sort(all, SourceAfter)
  }

  /** Kept by source version, and the first from each version is the first registered. */
  lemma KeptBySource(list: seq<Migration>, all: seq<Migration>)
    requires ListOk(list, all)
    ensures multiset(list) == multiset(all) && forall i, j :: 0 <= i < j < |list| ==> list[i].from <= list[j].from
    ensures forall version :: Find(list, version) == Find(all, version)
  {
    SourceIsWeakOrder();
    SortIsStable(all, SourceAfter);
    forall version ensures Find(list, version) == Find(all, version) { FindSorted(all, version); }
  }

  lemma RegisterOk(list: seq<Migration>, all: seq<Migration>, m: Migration)
    requires m.from < m.to && (ListOk(list, all) || list == all == [])
    ensures ListOk(Sort(list + [m], SourceAfter), all + [m])
  {
    assert Sort([], SourceAfter) == [];
    SortTwice(all, m);
  }

  class MigrationRunner {
    var byKind: map<string, seq<Migration>>
    ghost var registered: map<string, seq<Migration>>   // in the order of registration

    ghost predicate Valid()
      reads this
    {
      && byKind.Keys == registered.Keys
      && forall kind :: kind in byKind ==> ListOk(byKind[kind], registered[kind])
    }

    ghost function Registered(kind: string): seq<Migration>
      reads this
    {
      if kind in registered then registered[kind] else []
    }

    constructor ()
      ensures Valid() && registered == map[]
    {
      byKind, registered := map[], map[];
    }

    /** Refused, and nothing changes, unless the target is above the source. */
    method Register(kind: string, from: int, to: int, fn: nat) returns (ok: bool)
      requires Valid()
      modifies this
      ensures Valid() && ok == (from < to)
      ensures registered
           == if ok then old(registered)[kind := old(Registered(kind)) + [Migration(from, to, fn)]] else old(registered)
    {
      if to <= from { return false; }
      var list := if kind in byKind then byKind[kind] else [];
      var m := Migration(from, to, fn);
      RegisterOk(list, Registered(kind), m);
      ghost var all := Registered(kind) + [m];
      hide Sort, ListOk;
      byKind := byKind[kind := Sort(list + [m], SourceAfter)];
      registered := registered[kind := all];
      ok := true;
    }

    method LatestVersion(kind: string) returns (version: Option<int>)
      requires Valid()
      ensures version == Latest(Registered(kind))
    {
      if kind !in byKind { return None; }
      SortedSame(registered[kind]);
      LatestSame(byKind[kind], registered[kind]);
      version := Latest(byKind[kind]);
    }

    method Migrate<V>(kind: string, fromVersion: int, data: V, run: (nat, V) -> Option<V>) returns (r: Result<V>)
      requires Valid()
      ensures Forward(Registered(kind)) && r == MigrateOf(Registered(kind), fromVersion, data, run)
    {
      var target := LatestVersion(kind);
      if target.None? || fromVersion >= target.value { return Migrated(data, fromVersion); }
      var list := byKind[kind];
      SortedForward(registered[kind]);
      MigrateSorted(registered[kind], fromVersion, target.value, data, run);
      var current, value := fromVersion, data;
      while current < target.value
        invariant MigrateFrom(list, current, target.value, value, run)
               == MigrateFrom(list, fromVersion, target.value, data, run)
        decreases target.value - current
      {
        var next := Find(list, current);
        if next.None? { return NoMigration(current); }
        var v := run(next.value.fn, value);
        if v.None? { return Threw(current); }
        value := v.value;
        current := next.value.to;
      }
      r := Migrated(value, current);
    }
  }

  lemma {:induction false} SortOfSorted(s: seq<Migration>)
    requires Sorted(s, SourceAfter)
    ensures Sort(s, SourceAfter) == s
  {
    if s != [] {
      var init, last := s[..|s| - 1], s[|s| - 1];
      assert s == init + [last];
      SortOfSorted(init);
      assert init != [] ==> init[|init| - 1] == s[|s| - 2] && !SourceAfter(s[|s| - 2], last);
      hide Sorted, SourceAfter;
      assert Insert(init, last, SourceAfter) == init + [last];
    }
  }

  /** Sorting after every registration is sorting once at the end. */
  lemma SortTwice(list: seq<Migration>, m: Migration)
    ensures Sort(Sort(list, SourceAfter) + [m], SourceAfter) == Sort(list + [m], SourceAfter)
  {
    SourceIsWeakOrder();
    SortIsStable(list, SourceAfter);
    var sorted := Sort(list, SourceAfter);
    SortOfSorted(sorted);
    assert (sorted + [m])[..|sorted|] == sorted && (list + [m])[..|list|] == list;
  }
}
