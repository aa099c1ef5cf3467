/**
 * When scratchpads are used and what the pool makes of it, over whole runs: the stamp eviction
 * goes by is the time of the last use, so it is the least recently used kernels that go.
 */
module ScratchpadUses {
  import opened Wrappers
  import opened CellArchive
  import opened KernelPool
  import opened ScratchpadModel
  import opened ScratchpadInvariants

  /** The time at which a call uses scratchpad n, if it gets that far. */
  function UsedAt(m: Manager, e: Event, n: Name): Option<int> {
    if m.disposed then None
    else
      match e
      case Create(name, now, env) =>
        if name == n && n !in m.entries && n !in m.disk && env.lockFree && env.spawns then Some(now) else None
      case GetOrAttach(name, now, env) =>
        if name == n && (n in m.entries || (env.lockFree && env.spawns)) then Some(now) else None
      case RunCell(name, _, now, env) =>
        if name == n && (n in m.entries || (env.lockFree && env.spawns)) then Some(now) else None
      case Fork(src, dst, now, exits) =>
        if && dst == n && n !in m.entries && n !in m.disk && src in m.disk
           && (exits || !(src in m.entries && m.entries[src].runtime.Warm?))
        then Some(now) else None
      case _ => None
  }

  ghost function LastUse(m: Manager, es: seq<Event>, n: Name, was: Option<int>): Option<int>
    requires Inv(m)
    decreases |es|
  {
    if es == [] then was
    else
      StepRefinesDocs(m, es[0], n);
      var used := UsedAt(m, es[0], n);
      LastUse(Step(m, es[0]), es[1..], n, if used.Some? then used else was)
  }

  ghost predicate Stamped(entries: Entries, n: Name, use: Option<int>) {
    n in entries ==> use == Some(entries[n].lastUsedAt)
  }

  // ---- One part of an attach at a time ----

  predicate SameFrame(m: Manager, m': Manager) {
    m'.entries.Keys == m.entries.Keys && m'.order == m.order && m'.disk == m.disk
  }

  lemma TouchFacts(m: Manager, name: Name, now: int, n: Name)
    requires name in m.entries && n in m.entries
    ensures SameFrame(m, Touch(m, name, now))
    ensures var e := Touch(m, name, now).entries[n];
            e.runtime == m.entries[n].runtime && e.lastUsedAt == if n == name then now else m.entries[n].lastUsedAt
  {}

  lemma EvictingFacts(m: Manager, n: Name)
    requires WellOrdered(m) && n in m.entries
    ensures SameFrame(m, Evicting(m)) && Evicting(m).entries[n].lastUsedAt == m.entries[n].lastUsedAt
  {
    EvictLruOnlyCoolsIdle(m.order, m.entries, m.maxLive);
  }

  lemma RewarmFacts(m: Manager, name: Name, n: Name)
    requires name in m.entries && name in m.disk && n in m.entries
    ensures SameFrame(m, Rewarm(m, name))
    ensures Rewarm(m, name).entries[name].runtime == Warm(false)
    ensures Rewarm(m, name).entries[n].lastUsedAt == m.entries[n].lastUsedAt
  {}

  lemma ManagedIs(m: Manager, name: Name, now: int, env: Env)
    requires Inv(m) && name in m.entries
    ensures var touched := Touch(m, name, now);
            && name in m.disk && WellOrdered(touched)
            && name in Evicting(touched).entries && name in Evicting(touched).disk
            && (m.entries[name].runtime.Warm? ==> AttachManaged(m, name, now, env) == touched)
            && (m.entries[name].runtime.Cold? ==>
                  AttachManaged(m, name, now, env)
                  == if env.spawns then Rewarm(Evicting(touched), name) else Evicting(touched))
  {
    TouchKeeps(m, name, now);
    EvictingFacts(Touch(m, name, now), name);
    hide ValidDoc, Mirrors, Ordered, Evicting, Rewarm;
  }

  lemma ManagedFacts(m: Manager, name: Name, now: int, env: Env, n: Name)
    requires Inv(m) && name in m.entries && n in m.entries
    ensures var r := AttachManaged(m, name, now, env);
            && SameFrame(m, r)
            && r.entries[n].lastUsedAt == (if n == name then now else m.entries[n].lastUsedAt)
            && (m.entries[name].runtime.Warm? ==> r.entries[name].runtime == m.entries[name].runtime)
            && (m.entries[name].runtime.Cold? && env.spawns ==> r.entries[name].runtime == Warm(false))
  {
    ManagedIs(m, name, now, env);
    var touched := Touch(m, name, now);
    hide Inv, Touch, Evicting, Rewarm, AttachManaged, WellOrdered;
    TouchFacts(m, name, now, n);
    TouchFacts(m, name, now, name);
    EvictingFacts(touched, n);
    if m.entries[name].runtime.Cold? && env.spawns { RewarmFacts(Evicting(touched), name, n); }
  }

  lemma UnmanagedStamps(m: Manager, name: Name, now: int, env: Env, n: Name)
    requires Inv(m) && name !in m.entries
    ensures var r := AttachUnmanaged(m, name, now, env);
            && (n in r.entries <==> n in m.entries || (n == name && env.lockFree && env.spawns))
            && (n in r.entries ==> r.entries[n].lastUsedAt == if n == name then now else m.entries[n].lastUsedAt)
  {
    EvictLruOnlyCoolsIdle(m.order, m.entries, m.maxLive);
    hide ValidDoc, Mirrors, Ordered, EvictLru, RestoreLeaf, OpenArchive, WriteMeta;
  }

  lemma AttachStamps(m: Manager, name: Name, now: int, env: Env, n: Name)
    requires Inv(m)
    ensures var r := Attach(m, name, now, env);
            && (n in r.entries <==> n in m.entries || (n == name && env.lockFree && env.spawns))
            && (n in r.entries ==> r.entries[n].lastUsedAt == if n == name then now else m.entries[n].lastUsedAt)
  {
    AttachIs(m, name, now, env);
    if name !in m.entries {
      UnmanagedStamps(m, name, now, env, n);
    } else {
      ManagedFacts(m, name, now, env, if n in m.entries then n else name);
    }
    hide Inv, Attach, AttachManaged, AttachUnmanaged;
  }

  lemma CallStamps(m: Manager, e: Event, n: Name, was: Option<int>)
    requires Inv(m) && Stamped(m.entries, n, was) && (e.Create? || e.GetOrAttach? || e.RunCell?)
    ensures Stamped(Step(m, e).entries, n, if UsedAt(m, e, n).Some? then UsedAt(m, e, n) else was)
  {
    if !m.disposed && (e.Create? ==> e.name !in m.entries && e.name !in m.disk) {
      AttachStamps(m, e.name, e.now, e.env, n);
      AttachHolds(m, e.name, e.now, e.env);
    }
    hide ValidDoc, Mirrors, Ordered, AttachManaged, AttachUnmanaged, WriteMeta;
    match e
    case Create(name, now, env) => if name !in m.entries { AttachOfNew(m, name, now, env); }
    case GetOrAttach(name, now, env) => hide Attach;
    case RunCell(name, input, now, env) => hide Attach;
  }

  lemma AttachOfNew(m: Manager, name: Name, now: int, env: Env)
    requires Inv(m) && name !in m.entries
    ensures Attach(m, name, now, env) == AttachUnmanaged(m, name, now, env)
  {}

  lemma ForkStamps(m: Manager, src: Name, dst: Name, now: int, exits: bool, n: Name, was: Option<int>)
    requires Inv(m) && Stamped(m.entries, n, was)
    ensures var e := Fork(src, dst, now, exits);
            Stamped(Step(m, e).entries, n, if UsedAt(m, e, n).Some? then UsedAt(m, e, n) else was)
  {
    ForkCases(m, src, dst, now, exits);
    hide Inv, Step, OpenArchive;
  }

  lemma OtherStamps(m: Manager, e: Event, n: Name, was: Option<int>)
    requires Inv(m) && Stamped(m.entries, n, was) && !e.Create? && !e.GetOrAttach? && !e.RunCell? && !e.Fork?
    ensures Stamped(Step(m, e).entries, n, was) && UsedAt(m, e, n).None?
  {
    hide ValidDoc, Mirrors, Ordered;
  }

  lemma StepStamps(m: Manager, e: Event, n: Name, was: Option<int>)
    requires Inv(m) && Stamped(m.entries, n, was)
    ensures Stamped(Step(m, e).entries, n, if UsedAt(m, e, n).Some? then UsedAt(m, e, n) else was)
  {
    hide *;
    match e
    case Create(_, _, _) => CallStamps(m, e, n, was);
    case GetOrAttach(_, _, _) => CallStamps(m, e, n, was);
    case RunCell(_, _, _, _) => CallStamps(m, e, n, was);
    case Fork(src, dst, now, exits) => ForkStamps(m, src, dst, now, exits, n, was);
    case _ => OtherStamps(m, e, n, was);
  }

  lemma {:induction false} RunStamps(m: Manager, es: seq<Event>, n: Name, was: Option<int>)
    requires Inv(m) && Stamped(m.entries, n, was)
    ensures Stamped(Run(m, es).entries, n, LastUse(m, es, n, was))
    decreases |es|
  {
    if es != [] {
      StepRefinesDocs(m, es[0], n);
      StepStamps(m, es[0], n, was);
      var used := UsedAt(m, es[0], n);
      RunStamps(Step(m, es[0]), es[1..], n, if used.Some? then used else was);
      hide Inv, Step, Stamped, UsedAt, DocAfter, Succeeds;
    }
  }

  /** In every run the stamp of a managed scratchpad is the time of its last use. */
  lemma StampIsLastUse(maxLive: int, disk: Disk, es: seq<Event>, n: Name)
    requires forall n :: n in disk ==> ValidDoc(disk[n])
    ensures Inv(NewManager(maxLive, disk)) && Inv(Run(NewManager(maxLive, disk), es))
    ensures var entries := Run(NewManager(maxLive, disk), es).entries;
            n in entries ==> LastUse(NewManager(maxLive, disk), es, n, None) == Some(entries[n].lastUsedAt)
  {
    NewManagerInv(maxLive, disk);
    RunKeeps(NewManager(maxLive, disk), es);
    RunStamps(NewManager(maxLive, disk), es, n, None);
    hide Inv, Run, LastUse;
  }

  // ---- Who is evicted ----

  /** A call that may start a kernel. */
  predicate Attaches(e: Event) {
    e.Create? || e.GetOrAttach? || e.RunCell?
  }

  /** Warm before the step and cold after it. */
  ghost predicate GoesCold(m: Manager, m': Manager, n: Name) {
    IsWarm(m.entries, n) && n in m'.entries && m'.entries[n].runtime.Cold?
  }

  /** The entries other than name's come from evicted, or no runtime has changed. */
  ghost predicate LeftToEviction(entries: Entries, evicted: Entries, after: Entries, name: Name) {
    || (forall n :: n in entries ==> n in after && after[n].runtime == entries[n].runtime)
    || (!IsWarm(entries, name)
        && forall n :: n in entries && n != name ==> n in after && n in evicted && after[n] == evicted[n])
  }

  lemma RewarmElsewhere(m: Manager, name: Name)
    requires name in m.entries && name in m.disk
    ensures Rewarm(m, name).entries.Keys == m.entries.Keys
    ensures forall n :: n in m.entries && n != name ==> Rewarm(m, name).entries[n] == m.entries[n]
  {}

  lemma AdoptElsewhere(m: Manager, name: Name, now: int)
    requires name in m.disk
    ensures Adopt(m, name, now).entries.Keys == m.entries.Keys + {name}
    ensures forall n :: n in m.entries && n != name ==> Adopt(m, name, now).entries[n] == m.entries[n]
  {}

  predicate SameBut(entries: Entries, after: Entries, name: Name) {
    entries.Keys <= after.Keys && forall n :: n in entries && n != name ==> after[n] == entries[n]
  }

  lemma LeftIf(entries: Entries, evicted: Entries, after: Entries, name: Name)
    requires !IsWarm(entries, name) && evicted.Keys == entries.Keys && SameBut(evicted, after, name)
    ensures LeftToEviction(entries, evicted, after, name)
  {}

  /** What becomes of the entries: touched alone, or made room for, and the one entry set. */
  lemma ManagedCases(m: Manager, name: Name, now: int, env: Env)
    requires Inv(m) && name in m.entries
    ensures WellOrdered(Touch(m, name, now)) && Evicting(Touch(m, name, now)).entries.Keys == m.entries.Keys
    ensures var after, touched := AttachManaged(m, name, now, env).entries, Touch(m, name, now);
            if IsWarm(m.entries, name) then after == touched.entries
            else SameBut(Evicting(touched).entries, after, name)
  {
    var touched := Touch(m, name, now);
    ManagedIs(m, name, now, env);
    TouchFacts(m, name, now, name);
    EvictingFacts(touched, name);
    hide Inv, Touch, Evicting, Rewarm, AttachManaged, WellOrdered;
    if m.entries[name].runtime.Cold? && env.spawns { RewarmElsewhere(Evicting(touched), name); }
  }

  lemma ManagedElsewhere(m: Manager, name: Name, now: int, env: Env)
    requires Inv(m) && name in m.entries
    ensures WellOrdered(Touch(m, name, now))
    ensures LeftToEviction(m.entries, EvictLru(m.order, Touch(m, name, now).entries, m.maxLive),
                           AttachManaged(m, name, now, env).entries, name)
  {
    ManagedCases(m, name, now, env);
    hide Inv, WellOrdered, AttachManaged, SameBut, EvictLru;
    if !IsWarm(m.entries, name) {
      LeftIf(m.entries, Evicting(Touch(m, name, now)).entries, AttachManaged(m, name, now, env).entries, name);
    }
  }

  lemma UnmanagedCases(m: Manager, name: Name, now: int, env: Env)
    requires Inv(m) && name !in m.entries
    ensures EvictLru(m.order, m.entries, m.maxLive).Keys == m.entries.Keys
    ensures var after := AttachUnmanaged(m, name, now, env).entries;
            after == m.entries || SameBut(EvictLru(m.order, m.entries, m.maxLive), after, name)
  {
    EvictLruOnlyCoolsIdle(m.order, m.entries, m.maxLive);
    var made := m.(disk := WriteMeta(m.entries, m.disk, name));
    if env.lockFree && env.spawns { AdoptElsewhere(Evicting(made), name, now); }
    hide ValidDoc, Mirrors, Ordered, EvictLru, WriteMeta, Adopt;
  }

  lemma UnmanagedElsewhere(m: Manager, name: Name, now: int, env: Env)
    requires Inv(m) && name !in m.entries
    ensures LeftToEviction(m.entries, EvictLru(m.order, m.entries, m.maxLive),
                           AttachUnmanaged(m, name, now, env).entries, name)
  {
    UnmanagedCases(m, name, now, env);
    var after := AttachUnmanaged(m, name, now, env).entries;
    hide Inv, WellOrdered, AttachUnmanaged, SameBut, EvictLru;
    if after != m.entries { LeftIf(m.entries, EvictLru(m.order, m.entries, m.maxLive), after, name); }
  }

  lemma EvictionChooses(
    order: seq<Name>, entries: Entries, before: Entries, maxLive: int, after: Entries,
    name: Name, gone: Name, kept: Name)
    requires Ordered(order, before) && before.Keys == entries.Keys
    requires forall n :: n in entries && n != name ==> before[n] == entries[n]
    requires LeftToEviction(entries, EvictLru(order, before, maxLive), after, name)
    requires IsWarm(entries, gone) && gone in after && after[gone].runtime.Cold?
    requires IsIdle(entries, kept) && IsIdle(after, kept)
    ensures entries[gone].lastUsedAt <= entries[kept].lastUsedAt
  {
    hide Ordered, EvictLru;
    EvictLruIsLeastRecent(order, before, maxLive, gone, kept);
  }

  lemma TouchElsewhere(m: Manager, name: Name, now: int)
    requires name in m.entries
    ensures Touch(m, name, now).entries.Keys == m.entries.Keys
    ensures forall n :: n in m.entries && n != name ==> Touch(m, name, now).entries[n] == m.entries[n]
  {}

  lemma AttachIs(m: Manager, name: Name, now: int, env: Env)
    requires Inv(m)
    ensures Ordered(m.order, m.entries)
    ensures name in m.entries ==> name in m.disk && Attach(m, name, now, env) == AttachManaged(m, name, now, env)
    ensures name !in m.entries ==> Attach(m, name, now, env) == AttachUnmanaged(m, name, now, env)
  {
    hide ValidDoc, Mirrors, Ordered, AttachManaged, AttachUnmanaged;
  }

  lemma AttachEvicts(m: Manager, name: Name, now: int, env: Env, gone: Name, kept: Name)
    requires Inv(m) && IsWarm(m.entries, gone) && gone in Attach(m, name, now, env).entries
    requires Attach(m, name, now, env).entries[gone].runtime.Cold?
    requires IsIdle(m.entries, kept) && IsIdle(Attach(m, name, now, env).entries, kept)
    ensures m.entries[gone].lastUsedAt <= m.entries[kept].lastUsedAt
  {
    AttachIs(m, name, now, env);
    var after := Attach(m, name, now, env).entries;
    if name in m.entries {
      ManagedElsewhere(m, name, now, env);
      TouchElsewhere(m, name, now);
      WellOrderedIs(Touch(m, name, now));
      hide *;
      EvictionChooses(m.order, m.entries, Touch(m, name, now).entries, m.maxLive, after, name, gone, kept);
    } else {
      UnmanagedElsewhere(m, name, now, env);
      hide *;
      EvictionChooses(m.order, m.entries, m.entries, m.maxLive, after, name, gone, kept);
    }
  }

  lemma WellOrderedIs(m: Manager)
    requires WellOrdered(m)
    ensures Ordered(m.order, m.entries)
  {}

  lemma StepIsAttach(m: Manager, e: Event, n: Name)
    requires Inv(m) && Attaches(e) && !(m.disposed || (e.Create? && (e.name in m.entries || e.name in m.disk)))
    ensures var a := Attach(m, e.name, e.now, e.env).entries;
            n in a <==> n in Step(m, e).entries
    ensures var a := Attach(m, e.name, e.now, e.env).entries;
            n in a ==> a[n].runtime == Step(m, e).entries[n].runtime
  {
    AttachHolds(m, e.name, e.now, e.env);
    hide ValidDoc, Mirrors, Ordered, AttachManaged, AttachUnmanaged;
    if e.Create? { AttachOfNew(m, e.name, e.now, e.env); }
    hide Attach;
  }

  lemma StepEvicts(m: Manager, e: Event, gone: Name, kept: Name)
    requires Inv(m) && Attaches(e) && GoesCold(m, Step(m, e), gone)
    requires IsIdle(m.entries, kept) && IsIdle(Step(m, e).entries, kept)
    ensures m.entries[gone].lastUsedAt <= m.entries[kept].lastUsedAt
  {
    if !(m.disposed || (e.Create? && (e.name in m.entries || e.name in m.disk))) {
      StepIsAttach(m, e, gone);
      StepIsAttach(m, e, kept);
      hide Inv, Step, Attach;
      AttachEvicts(m, e.name, e.now, e.env, gone, kept);
    }
  }

  /** In every run: no kernel is evicted whose last use is later than that of an idle one left warm. */
  lemma EvictsLeastRecentlyUsed(maxLive: int, disk: Disk, es: seq<Event>, e: Event, gone: Name, kept: Name)
    requires forall n :: n in disk ==> ValidDoc(disk[n])
    requires Inv(NewManager(maxLive, disk)) && Inv(Run(NewManager(maxLive, disk), es)) && Attaches(e)
    requires var m := Run(NewManager(maxLive, disk), es);
      && GoesCold(m, Step(m, e), gone)
      && IsIdle(m.entries, kept) && IsIdle(Step(m, e).entries, kept)
    ensures var start := NewManager(maxLive, disk);
            && LastUse(start, es, gone, None).Some? && LastUse(start, es, kept, None).Some?
            && LastUse(start, es, gone, None).value <= LastUse(start, es, kept, None).value
  {
    StampIsLastUse(maxLive, disk, es, gone);
    StampIsLastUse(maxLive, disk, es, kept);
    hide Inv, Run, LastUse, Step;
    StepEvicts(Run(NewManager(maxLive, disk), es), e, gone, kept);
  }

  /** The sweep cools, in every run, exactly the idle kernels whose last use is not after the cutoff. */
  lemma SweepGoesByLastUse(maxLive: int, disk: Disk, es: seq<Event>, cutoff: int, n: Name)
    requires forall n :: n in disk ==> ValidDoc(disk[n])
    requires Inv(NewManager(maxLive, disk)) && Inv(Run(NewManager(maxLive, disk), es))
    requires !Run(NewManager(maxLive, disk), es).disposed && n in Run(NewManager(maxLive, disk), es).entries
    ensures var m, use := Run(NewManager(maxLive, disk), es), LastUse(NewManager(maxLive, disk), es, n, None);
            && use.Some? && n in Step(m, EvictIdle(cutoff)).entries
            && Step(m, EvictIdle(cutoff)).entries[n].runtime
               == if m.entries[n].runtime == Warm(false) && use.value <= cutoff then Cold else m.entries[n].runtime
  {
    StampIsLastUse(maxLive, disk, es, n);
    hide Inv, Run, LastUse;
  }

  // ---- What each call leaves ----

  /** Entry n and file n are as before. */
  predicate Untouched(m: Manager, m': Manager, n: Name) {
    && (n in m'.entries <==> n in m.entries) && (n in m.entries ==> m'.entries[n] == m.entries[n])
    && DocOf(m'.disk, n) == DocOf(m.disk, n)
  }

  /** Attaching succeeds with a kernel at hand or to be had, and leaves the scratchpad warm; a running cell runs on. */
  lemma AttachLeaves(m: Manager, e: Event)
    requires Inv(m) && Attaches(e)
    ensures Succeeds(m, e) <==>
              && !m.disposed && (e.Create? ==> e.name !in m.entries && e.name !in m.disk)
              && if e.name in m.entries then m.entries[e.name].runtime.Warm? || e.env.spawns
                 else e.env.lockFree && e.env.spawns
    ensures Succeeds(m, e) ==>
              && e.name in Step(m, e).entries && e.name in Step(m, e).disk
              && Step(m, e).entries[e.name].runtime
                 == if IsWarm(m.entries, e.name) then m.entries[e.name].runtime else Warm(false)
    ensures !Succeeds(m, e) ==> Step(m, e).entries.Keys == m.entries.Keys && Step(m, e).order == m.order
  {
    if !m.disposed && (e.Create? ==> e.name !in m.entries && e.name !in m.disk) {
      AttachHolds(m, e.name, e.now, e.env);
      StepIsAttach(m, e, e.name);
      AttachRuntime(m, e.name, e.now, e.env);
      if e.Create? { AttachOfNew(m, e.name, e.now, e.env); }
    }
    hide ValidDoc, Mirrors, Ordered, AttachManaged, AttachUnmanaged, Attach;
  }

  lemma UnmanagedRuntime(m: Manager, name: Name, now: int, env: Env)
    requires Inv(m) && name !in m.entries
    ensures var r := AttachUnmanaged(m, name, now, env);
            if env.lockFree && env.spawns
            then name in r.entries && name in r.disk && r.entries[name].runtime == Warm(false)
            else r.entries.Keys == m.entries.Keys && r.order == m.order
  {
    EvictLruOnlyCoolsIdle(m.order, m.entries, m.maxLive);
    hide ValidDoc, Mirrors, Ordered, EvictLru, RestoreLeaf, OpenArchive;
  }

  lemma AttachRuntime(m: Manager, name: Name, now: int, env: Env)
    requires Inv(m)
    ensures AttachSucceeds(m, name, env) ==>
              && name in Attach(m, name, now, env).entries && name in Attach(m, name, now, env).disk
              && Attach(m, name, now, env).entries[name].runtime
                 == if IsWarm(m.entries, name) then m.entries[name].runtime else Warm(false)
    ensures !AttachSucceeds(m, name, env) ==>
              Attach(m, name, now, env).entries.Keys == m.entries.Keys && Attach(m, name, now, env).order == m.order
  {
    AttachIs(m, name, now, env);
    if name in m.entries { ManagedFacts(m, name, now, env, name); } else { UnmanagedRuntime(m, name, now, env); }
    hide Inv, Attach, AttachManaged, AttachUnmanaged;
  }

  /** Evicting one kernel: refused when cold, or busy and not forced; nothing else changes. */
  lemma EvictLeaves(m: Manager, name: Name, force: bool, n: Name)
    requires Inv(m)
    ensures var e, m' := Evict(name, force), Step(m, Evict(name, force));
            if && !m.disposed && name in m.entries && m.entries[name].runtime.Warm?
               && (force || !m.entries[name].runtime.busy)
            then && Succeeds(m, e) && name in m'.entries && m'.entries[name] == m.entries[name].(runtime := Cold)
                 && (n != name ==> Untouched(m, m', n))
            else !Succeeds(m, e) && m' == m
  {
    hide Inv;
  }

  lemma ForkElsewhere(m: Manager, src: Name, dst: Name, now: int, exits: bool, n: Name)
    requires Inv(m) && n != src && n != dst
    ensures Untouched(m, Step(m, Fork(src, dst, now, exits)), n)
  {
    ForkCases(m, src, dst, now, exits);
    hide Inv, Step, OpenArchive, Succeeds;
  }

  /** A fork leaves its source cold and its copy registered cold; a kernel that hangs is cooled in vain. */
  lemma ForkLeaves(m: Manager, src: Name, dst: Name, now: int, exits: bool, n: Name)
    requires Inv(m)
    ensures var e, m' := Fork(src, dst, now, exits), Step(m, Fork(src, dst, now, exits));
            && (Succeeds(m, e) <==>
                  && !m.disposed && dst !in m.entries && dst !in m.disk && src in m.disk
                  && (exits || !IsWarm(m.entries, src)))
            && (Succeeds(m, e) ==>
                  && dst in m'.entries && m'.entries[dst].runtime.Cold? && dst in m'.disk && m'.disk[dst] == m.disk[src]
                  && (src in m.entries ==> src in m'.entries && m'.entries[src] == m.entries[src].(runtime := Cold)))
            && (!Succeeds(m, e) ==>
                  if m.disposed || dst in m.entries || dst in m.disk || src !in m.disk then m' == m
                  else && m'.disk == m.disk && m'.order == m.order && src in m.entries
                       && m'.entries == m.entries[src := m.entries[src].(runtime := Cold)])
            && (n != src && n != dst ==> Untouched(m, m', n))
  {
    ForkCases(m, src, dst, now, exits);
    if n != src && n != dst { ForkElsewhere(m, src, dst, now, exits, n); }
    hide Inv, Step, OpenArchive, Untouched;
  }

  /** A warm kernel is busy from the start of a cell to its end, and nothing else changes. */
  lemma BusyAsTold(m: Manager, name: Name, busy: bool, n: Name)
    requires Inv(m)
    ensures var m' := Step(m, SetBusy(name, busy));
            && (name in m.entries && m.entries[name].runtime.Warm? ==>
                  name in m'.entries && m'.entries[name] == m.entries[name].(runtime := Warm(busy)))
            && (!(name in m.entries && m.entries[name].runtime.Warm?) ==> m' == m)
            && (n != name ==> Untouched(m, m', n))
  {
    hide Inv;
  }

  /** Removing forgets entry and files of one scratchpad. */
  lemma RemoveLeaves(m: Manager, name: Name, n: Name)
    requires Inv(m)
    ensures var m' := Step(m, Remove(name));
            name !in m'.entries && name !in m'.disk && (n != name ==> Untouched(m, m', n))
  {
    hide Inv;
  }

  /** Closing and reopening forget every entry and no file. */
  lemma ClosingLeaves(m: Manager)
    requires Inv(m)
    ensures Step(m, DisposeAll).entries == map[] && Step(m, DisposeAll).disk == m.disk && Step(m, DisposeAll).disposed
    ensures Step(m, Event.Reopen).entries == map[] && Step(m, Event.Reopen).disk == m.disk
    ensures !Step(m, Event.Reopen).disposed
  {}

  /** A leaf can be moved to exactly the cells of the journal; history is cleared unless a cell runs. */
  lemma EditsRefusedIff(m: Manager, name: Name, id: nat)
    requires Inv(m)
    ensures Succeeds(m, Event.SetLeaf(name, id)) <==> !m.disposed && name in m.disk && 1 <= id <= |m.disk[name].cells|
    ensures Succeeds(m, ClearHistory(name)) <==>
              !m.disposed && !(name in m.entries && m.entries[name].runtime.Warm? && m.entries[name].runtime.busy)
    ensures !Succeeds(m, Event.SetLeaf(name, id)) ==> Step(m, Event.SetLeaf(name, id)) == m
    ensures !Succeeds(m, ClearHistory(name)) ==> Step(m, ClearHistory(name)) == m
  {
    if name in m.disk {
      assert ValidDoc(m.disk[name]);
      if 1 <= id <= |m.disk[name].cells| { assert m.disk[name].cells[id - 1].id == id; }
    }
  }
}
