/**
 * The pool of live kernels in packages/coworker-scratchpad/src/scratchpad-manager.ts: which
 * kernel is cooled when the pool is full, and what that leaves warm.
 */
module KernelPool {
  import opened Wrappers

  type Name = string

  datatype Runtime = Cold | Warm(busy: bool)

  /** What CellArchive holds in memory for one scratchpad. */
  datatype Archive = Archive(nextId: nat, lastId: Option<nat>, leafId: Option<nat>)

  datatype Entry = Entry(runtime: Runtime, lastUsedAt: int, archive: Archive)

  type Entries = map<Name, Entry>

  /** order lists the keys in insertion order. */
  ghost predicate Ordered(order: seq<Name>, entries: Entries) {
    && (forall n :: n in order <==> n in entries)
    && (forall i, j :: 0 <= i < j < |order| ==> order[i] != order[j])
  }

  predicate IsWarm(entries: Entries, n: Name) {
    n in entries && entries[n].runtime.Warm?
  }

  predicate IsIdle(entries: Entries, n: Name) {
    n in entries && entries[n].runtime == Warm(false)
  }

  function Cool(entries: Entries, n: Name): Entries {
    if n in entries then entries[n := entries[n].(runtime := Cold)] else entries
  }

  lemma CoolIsIdle(entries: Entries, n: Name)
    ensures !(n in entries && entries[n].runtime.Warm?) ==> Cool(entries, n) == entries
  {}

  function WarmCount(names: seq<Name>, entries: Entries): nat {
    if names == [] then 0
    else
      var k := |names| - 1;
      WarmCount(names[..k], entries) + if IsWarm(entries, names[k]) then 1 else 0
  }

  ghost function WarmNames(names: seq<Name>, entries: Entries): set<Name> {
    set n | n in names && n in entries && entries[n].runtime.Warm?
  }

  lemma WarmNamesSnoc(init: seq<Name>, last: Name, entries: Entries)
    requires last !in init
    ensures WarmNames(init + [last], entries) == WarmNames(init, entries) + if IsWarm(entries, last) then {last} else {}
    ensures |WarmNames(init + [last], entries)| == |WarmNames(init, entries)| + if IsWarm(entries, last) then 1 else 0
  {
    assert last !in WarmNames(init, entries);
  }

  /** The number of warm kernels. */
  lemma {:induction false} WarmCountIs(names: seq<Name>, entries: Entries)
    requires forall i, j :: 0 <= i < j < |names| ==> names[i] != names[j]
    ensures WarmCount(names, entries) == |WarmNames(names, entries)|
  {
    if names != [] {
      var init, last := names[..|names| - 1], names[|names| - 1];
      assert names == init + [last] && last !in init;
      hide WarmNames, IsWarm;
      WarmCountIs(init, entries);
      WarmNamesSnoc(init, last, entries);
    }
  }

  /** The first of the least recently used idle kernels. */
  function Victim(names: seq<Name>, entries: Entries): (v: Option<Name>)
    ensures v.Some? ==> IsIdle(entries, v.value) && v.value in names
  {
    if names == [] then None
    else
      var k := |names| - 1;
      var best := Victim(names[..k], entries);
      if !IsIdle(entries, names[k]) then best
      else if best.None? || entries[names[k]].lastUsedAt < entries[best.value].lastUsedAt then Some(names[k])
      else best
  }

  lemma {:induction false} VictimIsLeastRecent(names: seq<Name>, entries: Entries, n: Name)
    requires n in names && IsIdle(entries, n)
    ensures Victim(names, entries).Some?
    ensures entries[Victim(names, entries).value].lastUsedAt <= entries[n].lastUsedAt
  {
    var k := |names| - 1;
    if n in names[..k] {
      VictimIsLeastRecent(names[..k], entries, n);
    } else {
      assert names == names[..k] + [names[k]];
    }
  }

  /** Of the idle kernels used least recently it is the first in insertion order. */
  lemma {:induction false} VictimIsFirst(names: seq<Name>, entries: Entries) returns (k: nat)
    requires Victim(names, entries).Some?
    ensures k < |names| && Victim(names, entries) == Some(names[k]) && IsIdle(entries, names[k])
    ensures forall i :: 0 <= i < |names| && IsIdle(entries, names[i]) ==>
              if i < k then entries[names[i]].lastUsedAt > entries[names[k]].lastUsedAt
              else entries[names[i]].lastUsedAt >= entries[names[k]].lastUsedAt
  {
    k := |names| - 1;
    var before := names[..k];
    assert forall i :: 0 <= i < k ==> before[i] == names[i];
    if Victim(before, entries).Some? {
      var j := VictimIsFirst(before, entries);
      if !IsIdle(entries, names[k]) || entries[names[k]].lastUsedAt >= entries[names[j]].lastUsedAt { k := j; }
    } else {
      forall i | 0 <= i < k ensures !IsIdle(entries, names[i]) {
        if IsIdle(entries, before[i]) { VictimIsLeastRecent(before, entries, before[i]); }
      }
    }
  }

  lemma {:induction false} CoolElsewhere(names: seq<Name>, entries: Entries, n: Name)
    requires n !in names
    ensures WarmCount(names, Cool(entries, n)) == WarmCount(names, entries)
  {
    if names != [] {
      CoolElsewhere(names[..|names| - 1], entries, n);
    }
  }

  /** Cooling a warm kernel lowers the count by one. */
  lemma {:induction false} CoolLowersCount(names: seq<Name>, entries: Entries, n: Name)
    requires n in names && IsWarm(entries, n) && forall i, j :: 0 <= i < j < |names| ==> names[i] != names[j]
    ensures WarmCount(names, Cool(entries, n)) == WarmCount(names, entries) - 1
  {
    var k := |names| - 1;
    if names[k] == n {
      CoolElsewhere(names[..k], entries, n);
    } else {
      assert names == names[..k] + [names[k]];
      CoolLowersCount(names[..k], entries, n);
    }
  }

  function EvictLru(order: seq<Name>, entries: Entries, maxLive: int): Entries
    requires Ordered(order, entries)
    decreases WarmCount(order, entries)
  {
    if WarmCount(order, entries) < maxLive then entries
    else
      match Victim(order, entries)
      case None => entries
      case Some(v) =>
        CoolLowersCount(order, entries, v);
        EvictLru(order, Cool(entries, v), maxLive)
  }

  /** n was warm and has been cooled. */
  predicate Evicted(before: Entries, after: Entries, n: Name) {
    IsWarm(before, n) && n in after && after[n].runtime.Cold?
  }

  /** Eviction changes nothing but runtimes, and those only from idle to cold. */
  ghost predicate OnlyIdleCooled(before: Entries, after: Entries) {
    && after.Keys == before.Keys
    && forall n :: n in before ==>
         after[n] == before[n] || (IsIdle(before, n) && after[n] == before[n].(runtime := Cold))
  }

  lemma {:induction false} EvictLruOnlyCoolsIdle(order: seq<Name>, entries: Entries, maxLive: int)
    requires Ordered(order, entries)
    ensures OnlyIdleCooled(entries, EvictLru(order, entries, maxLive))
    decreases WarmCount(order, entries)
  {
    var v := Victim(order, entries);
    if WarmCount(order, entries) >= maxLive && v.Some? {
      CoolLowersCount(order, entries, v.value);
      EvictLruOnlyCoolsIdle(order, Cool(entries, v.value), maxLive);
    }
  }

  /** Afterwards there is room for one more kernel, or everything warm is busy. */
  lemma {:induction false} EvictLruMakesRoom(order: seq<Name>, entries: Entries, maxLive: int)
    requires Ordered(order, entries)
    ensures var after := EvictLru(order, entries, maxLive);
            WarmCount(order, after) < maxLive || forall n :: IsWarm(after, n) ==> after[n].runtime.busy
    decreases WarmCount(order, entries)
  {
    var v := Victim(order, entries);
    if WarmCount(order, entries) >= maxLive {
      if v.Some? {
        CoolLowersCount(order, entries, v.value);
        EvictLruMakesRoom(order, Cool(entries, v.value), maxLive);
      } else {
        forall n | IsWarm(entries, n) ensures entries[n].runtime.busy {
          if IsIdle(entries, n) { VictimIsLeastRecent(order, entries, n); }
        }
      }
    }
  }

  /** No kernel is cooled while a less recently used idle one stays warm. */
  lemma {:induction false} EvictLruIsLeastRecent(
    order: seq<Name>, entries: Entries, maxLive: int, gone: Name, kept: Name)
    requires Ordered(order, entries)
    requires Evicted(entries, EvictLru(order, entries, maxLive), gone)
    requires IsIdle(EvictLru(order, entries, maxLive), kept)
    ensures kept in entries && gone in entries && entries[gone].lastUsedAt <= entries[kept].lastUsedAt
    decreases WarmCount(order, entries)
  {
    EvictLruOnlyCoolsIdle(order, entries, maxLive);
    var v := Victim(order, entries).value;
    CoolLowersCount(order, entries, v);
    if gone == v {
      VictimIsLeastRecent(order, entries, kept);
    } else {
      EvictLruIsLeastRecent(order, Cool(entries, v), maxLive, gone, kept);
    }
  }

  /** Nothing is cooled that did not have to be. */
  lemma {:induction false} EvictLruNoMoreThanNeeded(order: seq<Name>, entries: Entries, maxLive: int)
    requires Ordered(order, entries)
    ensures var after := EvictLru(order, entries, maxLive);
            after == entries || WarmCount(order, after) >= maxLive - 1
    decreases WarmCount(order, entries)
  {
    var v := Victim(order, entries);
    if WarmCount(order, entries) >= maxLive && v.Some? {
      CoolLowersCount(order, entries, v.value);
      EvictLruNoMoreThanNeeded(order, Cool(entries, v.value), maxLive);
    }
  }

  // ---- Warming a kernel after making room ----

  lemma {:induction false} WarmElsewhere(names: seq<Name>, entries: Entries, n: Name, e: Entry)
    requires n !in names
    ensures WarmCount(names, entries[n := e]) == WarmCount(names, entries)
  {
    if names != [] {
      WarmElsewhere(names[..|names| - 1], entries, n, e);
    }
  }

  lemma {:induction false} WarmOneMore(names: seq<Name>, entries: Entries, n: Name, e: Entry)
    requires forall i, j :: 0 <= i < j < |names| ==> names[i] != names[j]
    ensures WarmCount(names, entries[n := e]) <= WarmCount(names, entries) + 1
  {
    if names != [] {
      var k := |names| - 1;
      if names[k] == n {
        WarmElsewhere(names[..k], entries, n, e);
      } else {
        WarmOneMore(names[..k], entries, n, e);
      }
    }
  }

  /** Within the limit, or every warm kernel but the new one is running a cell. */
  ghost predicate PoolBounded(order: seq<Name>, entries: Entries, maxLive: int, newest: Name) {
    WarmCount(order, entries) <= maxLive || forall n :: IsWarm(entries, n) && n != newest ==> entries[n].runtime.busy
  }

  /** After a spawning attach the pool is within its limit or everything else is busy. */
  lemma SpawnKeepsPoolBounded(order: seq<Name>, entries: Entries, maxLive: int, n: Name, e: Entry)
    requires Ordered(order, entries)
    ensures var after := EvictLru(order, entries, maxLive)[n := e];
            PoolBounded(if n in entries then order else order + [n], after, maxLive, n)
  {
    var evicted := EvictLru(order, entries, maxLive);
    EvictLruMakesRoom(order, entries, maxLive);
    WarmOneMore(order, evicted, n, e);
    if n !in entries {
      WarmElsewhere(order, evicted, n, e);
      assert (order + [n])[..|order|] == order;
    }
  }

  // ---- The idle sweep ----

  predicate Overdue(entries: Entries, n: Name, cutoff: int) {
    IsIdle(entries, n) && entries[n].lastUsedAt <= cutoff
  }

  function CoolOverdue(entries: Entries, cutoff: int): Entries {
    map n | n in entries :: if Overdue(entries, n, cutoff) then entries[n].(runtime := Cold) else entries[n]
  }

  /** The sweep as the loop takes it, one name after the other. */
  function Swept(names: seq<Name>, entries: Entries, cutoff: int): (after: Entries)
    ensures after.Keys == entries.Keys
  {
    if names == [] then entries
    else
      var k := |names| - 1;
      var before := Swept(names[..k], entries, cutoff);
      if Overdue(before, names[k], cutoff) then Cool(before, names[k]) else before
  }

  lemma {:induction false} SweptAt(names: seq<Name>, entries: Entries, cutoff: int, n: Name)
    requires n in entries
    ensures Swept(names, entries, cutoff)[n]
         == if n in names && Overdue(entries, n, cutoff) then entries[n].(runtime := Cold) else entries[n]
  {
    if names != [] {
      var k := |names| - 1;
      SweptAt(names[..k], entries, cutoff, n);
      assert names == names[..k] + [names[k]];
    }
  }

  /** Whatever the order, exactly the overdue kernels are cooled. */
  lemma SweptIsCoolOverdue(order: seq<Name>, entries: Entries, cutoff: int)
    requires forall n :: n in order <==> n in entries
    ensures Swept(order, entries, cutoff) == CoolOverdue(entries, cutoff)
  {
    forall n | n in entries ensures Swept(order, entries, cutoff)[n] == CoolOverdue(entries, cutoff)[n] {
      SweptAt(order, entries, cutoff, n);
    }
  }
}
