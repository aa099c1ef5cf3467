/**
 * src/seed-defaults.ts, lines 224-350: seeding default packages, quiet patterns and skill paths
 * into the user's settings. Each list stands beside a record of everything that was ever seeded.
 */
module SeedDefaults {
  import opened Wrappers

  /** A list the user may edit and the record the user does not see. */
  datatype Seeded = Seeded(items: seq<string>, seen: set<string>)

  datatype Settings = Settings(packages: Seeded, skills: Seeded, quiet: Seeded)

  datatype DefaultPackage = DefaultPackage(source: string, quietPattern: Option<string>)

  /** The command line, OTTO_NO_SEED_DEFAULTS, OTTO_SEED_DEFAULTS and the stored setting. */
  datatype Switches = Switches(
    noSeedDefaults: bool, withDefaults: bool, noSeedEnv: Option<string>, seedEnv: Option<string>, setting: Option<bool>)

  /** present: the harness skill paths that exist. */
  datatype Launch = Launch(
    switches: Switches, enabled: Option<seq<string>>, catalog: seq<DefaultPackage>, present: seq<string>)

  /** What the user does between launches: any of the lists may be rewritten. */
  datatype Event = Start(launch: Launch) | Edit(packages: seq<string>, skills: seq<string>, quiet: seq<string>)

  // ---- One list ----

  /** Targets that were never seeded and are not there go to the end. */
  function Push(items: seq<string>, seen: set<string>, targets: seq<string>): seq<string> {
    if targets == [] then items
    else
      var last := targets[|targets| - 1];
      var before := Push(items, seen, targets[..|targets| - 1]);
      if last in seen || last in before then before else before + [last]
  }

  function Reconciled(s: Seeded, targets: seq<string>): Seeded {
    Seeded(Push(s.items, s.seen, targets), s.seen + set t | t in targets)
  }

  /** An item is in the list afterwards if it was before, or if it is a target met for the first time. */
  lemma {:induction false} PushIff(items: seq<string>, seen: set<string>, targets: seq<string>, x: string)
    ensures items <= Push(items, seen, targets)
    ensures x in Push(items, seen, targets) <==> x in items || (x in targets && x !in seen)
  {
    if targets != [] {
      PushIff(items, seen, targets[..|targets| - 1], x);
      PushIff(items, seen, targets[..|targets| - 1], targets[|targets| - 1]);
      assert targets == targets[..|targets| - 1] + [targets[|targets| - 1]];
    }
  }

  lemma {:induction false} PushNothing(items: seq<string>, seen: set<string>, targets: seq<string>)
    requires forall t :: t in targets ==> t in seen || t in items
    ensures Push(items, seen, targets) == items
  {
    if targets != [] {
      assert targets[|targets| - 1] in targets && forall t :: t in targets[..|targets| - 1] ==> t in targets;
      PushNothing(items, seen, targets[..|targets| - 1]);
    }
  }

  lemma ReconcileTwice(s: Seeded, targets: seq<string>)
    ensures Reconciled(Reconciled(s, targets), targets) == Reconciled(s, targets)
  {
    PushNothing(Reconciled(s, targets).items, Reconciled(s, targets).seen, targets);
  }

  // ---- Whether to seed ----

  function LowerCase(s: string): string {
    seq(|s|, i requires 0 <= i < |s| => if 'A' <= s[i] <= 'Z' then s[i] - 'A' + 'a' else s[i])
  }

  predicate IsTruthyEnv(value: Option<string>) {
    value.Some? && LowerCase(value.value) in ["1", "true", "yes"]
  }

  /** Flags before environment before setting, off before on, and off in the end. */
  predicate ShouldSeed(w: Switches) {
    if w.noSeedDefaults then false
    else if w.withDefaults then true
    else if IsTruthyEnv(w.noSeedEnv) then false
    else if IsTruthyEnv(w.seedEnv) then true
    else w.setting.GetOr(false)
  }

  // ---- A launch ----

  function Dedup(s: seq<string>): seq<string> {
    if s == [] then []
    else
      var before := Dedup(s[..|s| - 1]);
      if s[|s| - 1] in before then before else before + [s[|s| - 1]]
  }

  function Sources(catalog: seq<DefaultPackage>): seq<string> {
    seq(|catalog|, i requires 0 <= i < |catalog| => catalog[i].source)
  }

  function Keep(all: seq<string>, allowed: seq<string>): seq<string> {
    if all == [] then []
    else Keep(all[..|all| - 1], allowed) + if all[|all| - 1] in allowed then [all[|all| - 1]] else []
  }

  /** undefined: all of them; a list: those of them that are on it. */
  function TargetsOf(launch: Launch): seq<string> {
    var all := Dedup(Sources(launch.catalog));
    match launch.enabled
    case None => all
    case Some(enabled) => Keep(all, enabled)
  }

  function PatternsOf(catalog: seq<DefaultPackage>, targets: seq<string>): seq<string> {
    if catalog == [] then []
    else
      var last := catalog[|catalog| - 1];
      PatternsOf(catalog[..|catalog| - 1], targets)
      + if last.quietPattern.Some? && last.source in targets then [last.quietPattern.value] else []
  }

  function Launched(s: Settings, launch: Launch): Settings {
    var targets := TargetsOf(launch);
    if !ShouldSeed(launch.switches) || targets == [] then s
    else
      Settings(Reconciled(s.packages, targets), Reconciled(s.skills, launch.present),
               Reconciled(s.quiet, PatternsOf(launch.catalog, targets)))
  }

  function Step(s: Settings, e: Event): Settings {
    match e
    case Start(launch) => Launched(s, launch)
    case Edit(packages, skills, quiet) =>
      Settings(s.packages.(items := packages), s.skills.(items := skills), s.quiet.(items := quiet))
  }

  /** A launch repeated without edits changes nothing. */
  lemma LaunchTwice(s: Settings, launch: Launch)
    ensures Launched(Launched(s, launch), launch) == Launched(s, launch)
  {
    var targets := TargetsOf(launch);
    ReconcileTwice(s.packages, targets);
    ReconcileTwice(s.skills, launch.present);
    ReconcileTwice(s.quiet, PatternsOf(launch.catalog, targets));
  }

  // ---- What a launch seeds ----

  /** The first that is set decides. */
  function FirstSet(votes: seq<Option<bool>>): bool {
    if votes == [] then false else if votes[0].Some? then votes[0].value else FirstSet(votes[1..])
  }

  function When(b: bool, vote: bool): Option<bool> {
    if b then Some(vote) else None
  }

  /** A variable switches when it reads 1, true or yes, in whatever case. */
  predicate Reads(value: Option<string>, word: string) {
    && value.Some? && |value.value| == |word|
    && forall i :: 0 <= i < |word| ==>
         value.value[i] == word[i] || ('A' <= value.value[i] <= 'Z' && value.value[i] - 'A' + 'a' == word[i])
  }

  lemma LowerCaseReads(s: string, word: string)
    requires forall i :: 0 <= i < |word| ==> !('A' <= word[i] <= 'Z')
    ensures LowerCase(s) == word <==> Reads(Some(s), word)
  {
    if Reads(Some(s), word) {
      assert forall i :: 0 <= i < |s| ==> LowerCase(s)[i] == word[i];
    }
  }

  lemma TruthyIff(value: Option<string>)
    ensures IsTruthyEnv(value) <==> Reads(value, "1") || Reads(value, "true") || Reads(value, "yes")
  {
    if value.Some? {
      LowerCaseReads(value.value, "1");
      LowerCaseReads(value.value, "true");
      LowerCaseReads(value.value, "yes");
    }
    hide LowerCase, Reads;
  }

  /** What each switch says, from the flag against seeding to the stored setting. */
  function Votes(w: Switches): seq<Option<bool>> {
    var off := Reads(w.noSeedEnv, "1") || Reads(w.noSeedEnv, "true") || Reads(w.noSeedEnv, "yes");
    var on := Reads(w.seedEnv, "1") || Reads(w.seedEnv, "true") || Reads(w.seedEnv, "yes");
    [When(w.noSeedDefaults, false), When(w.withDefaults, true), When(off, false), When(on, true), w.setting]
  }

  lemma FirstOf(vote: Option<bool>, rest: seq<Option<bool>>)
    ensures FirstSet([vote] + rest) == if vote.Some? then vote.value else FirstSet(rest)
  {
    assert ([vote] + rest)[1..] == rest;
  }

  /** The first switch that says something decides, and without any nothing is seeded. */
  lemma SeedsByPrecedence(w: Switches)
    ensures ShouldSeed(w) == FirstSet(Votes(w))
  {
    TruthyIff(w.noSeedEnv);
    TruthyIff(w.seedEnv);
    var a, b := When(w.noSeedDefaults, false), When(w.withDefaults, true);
    var c, d := When(IsTruthyEnv(w.noSeedEnv), false), When(IsTruthyEnv(w.seedEnv), true);
    assert Votes(w) == [a] + ([b] + ([c] + ([d] + ([w.setting] + []))));
    FirstOf(a, [b] + ([c] + ([d] + ([w.setting] + []))));
    FirstOf(b, [c] + ([d] + ([w.setting] + [])));
    FirstOf(c, [d] + ([w.setting] + []));
    FirstOf(d, [w.setting] + []);
    FirstOf(w.setting, []);
    hide IsTruthyEnv, Reads, Votes;
  }

  lemma {:induction false} DedupIff(s: seq<string>, x: string)
    ensures x in Dedup(s) <==> x in s
  {
    if s != [] {
      DedupIff(s[..|s| - 1], x);
      assert s == s[..|s| - 1] + [s[|s| - 1]];
    }
  }

  lemma {:induction false} KeepIff(all: seq<string>, allowed: seq<string>, x: string)
    ensures x in Keep(all, allowed) <==> x in all && x in allowed
  {
    if all != [] {
      KeepIff(all[..|all| - 1], allowed, x);
      assert all == all[..|all| - 1] + [all[|all| - 1]];
    }
  }

  /** A package to seed: in the catalog, and among the enabled ones if these are listed. */
  ghost predicate IsTarget(launch: Launch, x: string) {
    && (exists i :: 0 <= i < |launch.catalog| && launch.catalog[i].source == x)
    && (launch.enabled.None? || x in launch.enabled.value)
  }

  lemma TargetsIff(launch: Launch, x: string)
    ensures x in TargetsOf(launch) <==> IsTarget(launch, x)
  {
    var sources := Sources(launch.catalog);
    assert x in sources <==> exists i :: 0 <= i < |launch.catalog| && launch.catalog[i].source == x by {
      assert forall i :: 0 <= i < |sources| ==> sources[i] == launch.catalog[i].source;
    }
    DedupIff(sources, x);
    if launch.enabled.Some? { KeepIff(Dedup(sources), launch.enabled.value, x); }
  }

  lemma {:induction false} PatternsIff(catalog: seq<DefaultPackage>, targets: seq<string>, x: string)
    ensures x in PatternsOf(catalog, targets) <==>
              exists i :: 0 <= i < |catalog| && catalog[i].quietPattern == Some(x) && catalog[i].source in targets
  {
    if catalog != [] {
      var init, last := catalog[..|catalog| - 1], catalog[|catalog| - 1];
      PatternsIff(init, targets, x);
      assert forall i :: 0 <= i < |init| ==> init[i] == catalog[i];
    }
  }

  /** Does a launch reconcile at all? */
  ghost predicate Seeds(launch: Launch) {
    ShouldSeed(launch.switches) && exists x :: IsTarget(launch, x)
  }

  /** An item is in a list after a launch if it was before, or the launch brings it and has no record of it. */
  lemma LaunchSeedsIff(s: Settings, launch: Launch, x: string)
    ensures var s' := Launched(s, launch);
            && (x in s'.packages.items <==>
                  x in s.packages.items || (Seeds(launch) && IsTarget(launch, x) && x !in s.packages.seen))
            && (x in s'.packages.seen <==> x in s.packages.seen || (Seeds(launch) && IsTarget(launch, x)))
            && (x in s'.skills.items <==>
                  x in s.skills.items || (Seeds(launch) && x in launch.present && x !in s.skills.seen))
            && (x in s'.skills.seen <==> x in s.skills.seen || (Seeds(launch) && x in launch.present))
            && (x in s'.quiet.items <==>
                  x in s.quiet.items || (Seeds(launch) && BringsPattern(launch, x) && x !in s.quiet.seen))
            && (x in s'.quiet.seen <==> x in s.quiet.seen || (Seeds(launch) && BringsPattern(launch, x)))
            && s.packages.items <= s'.packages.items && s.skills.items <= s'.skills.items
            && s.quiet.items <= s'.quiet.items
  {
    var targets := TargetsOf(launch);
    var patterns := PatternsOf(launch.catalog, targets);
    SeedsIff(launch);
    TargetsIff(launch, x);
    BringsIff(launch, x);
    PushIff(s.packages.items, s.packages.seen, targets, x);
    PushIff(s.skills.items, s.skills.seen, launch.present, x);
    PushIff(s.quiet.items, s.quiet.seen, patterns, x);
    hide TargetsOf, PatternsOf, Push, IsTarget, ShouldSeed, Seeds, BringsPattern;
  }

  /** The quiet pattern of a package to seed. */
  ghost predicate BringsPattern(launch: Launch, x: string) {
    exists i :: 0 <= i < |launch.catalog| && launch.catalog[i].quietPattern == Some(x)
                && IsTarget(launch, launch.catalog[i].source)
  }

  lemma SeedsIff(launch: Launch)
    ensures Seeds(launch) <==> ShouldSeed(launch.switches) && TargetsOf(launch) != []
  {
    var targets := TargetsOf(launch);
    forall x ensures x in targets <==> IsTarget(launch, x) { TargetsIff(launch, x); }
    hide TargetsOf, IsTarget, ShouldSeed;
    if targets != [] { assert IsTarget(launch, targets[0]); }
  }

  lemma BringsIff(launch: Launch, x: string)
    ensures x in PatternsOf(launch.catalog, TargetsOf(launch)) <==> BringsPattern(launch, x)
  {
    var targets := TargetsOf(launch);
    PatternsIff(launch.catalog, targets, x);
    forall y ensures y in targets <==> IsTarget(launch, y) { TargetsIff(launch, y); }
    hide TargetsOf, IsTarget, PatternsOf;
  }

  // ---- In which order ----

  ghost predicate FirstAt(s: seq<string>, i: nat, x: string) {
    i < |s| && s[i] == x && x !in s[..i]
  }

  ghost predicate Before(s: seq<string>, x: string, y: string) {
    exists i: nat, j: nat :: FirstAt(s, i, x) && FirstAt(s, j, y) && i < j
  }

  /** Items of the whole, in the order in which they first occur in it. */
  ghost predicate InOrder(part: seq<string>, whole: seq<string>) {
    && (forall x :: x in part ==> x in whole)
    && (forall i, j :: 0 <= i < j < |part| ==> Before(whole, part[i], part[j]))
  }

  lemma {:induction false} FirstIndex(s: seq<string>, x: string) returns (i: nat)
    requires x in s
    ensures FirstAt(s, i, x)
  {
    var init := s[..|s| - 1];
    assert s == init + [s[|s| - 1]];
    if x in init {
      i := FirstIndex(init, x);
      assert s[..i] == init[..i];
    } else {
      i := |s| - 1;
    }
  }

  lemma BeforeGrows(s: seq<string>, last: string, x: string, y: string)
    requires Before(s, x, y) || (x in s && y == last && y !in s)
    ensures Before(s + [last], x, y)
  {
    var whole := s + [last];
    if Before(s, x, y) {
      var i: nat, j: nat :| FirstAt(s, i, x) && FirstAt(s, j, y) && i < j;
      assert whole[..i] == s[..i] && whole[..j] == s[..j];
      assert FirstAt(whole, i, x) && FirstAt(whole, j, y);
    } else {
      var i := FirstIndex(s, x);
      assert whole[..i] == s[..i] && whole[..|s|] == s;
      assert FirstAt(whole, i, x) && FirstAt(whole, |s|, y);
    }
  }

  lemma OrderGrows(part: seq<string>, whole: seq<string>, last: string, add: bool)
    requires InOrder(part, whole) && (add ==> last !in whole)
    ensures InOrder(part + if add then [last] else [], whole + [last])
  {
    var more := part + if add then [last] else [];
    forall i, j | 0 <= i < j < |more| ensures Before(whole + [last], more[i], more[j]) {
      BeforeGrows(whole, last, more[i], more[j]);
    }
    assert forall x :: x in more ==> x in part || x == last;
    hide Before;
  }

  lemma OrderChains(a: seq<string>, b: seq<string>, c: seq<string>)
    requires InOrder(a, b) && InOrder(b, c)
    ensures InOrder(a, c)
  {
    forall i, j | 0 <= i < j < |a| ensures Before(c, a[i], a[j]) {
      assert Before(b, a[i], a[j]);
      var k: nat, l: nat :| FirstAt(b, k, a[i]) && FirstAt(b, l, a[j]) && k < l;
    }
    hide Before;
  }

  lemma {:induction false} DedupInOrder(s: seq<string>)
    ensures InOrder(Dedup(s), s) && forall i, j :: 0 <= i < j < |Dedup(s)| ==> Dedup(s)[i] != Dedup(s)[j]
  {
    if s != [] {
      var init, last := s[..|s| - 1], s[|s| - 1];
      DedupInOrder(init);
      DedupIff(init, last);
      OrderGrows(Dedup(init), init, last, last !in Dedup(init));
      assert s == init + [last] && Dedup(init) + [] == Dedup(init);
      hide InOrder;
    }
  }

  lemma {:induction false} KeepInOrder(all: seq<string>, allowed: seq<string>)
    requires forall i, j :: 0 <= i < j < |all| ==> all[i] != all[j]
    ensures InOrder(Keep(all, allowed), all)
  {
    if all != [] {
      var init, last := all[..|all| - 1], all[|all| - 1];
      KeepInOrder(init, allowed);
      OrderGrows(Keep(init, allowed), init, last, last in allowed);
      assert all == init + [last];
      hide InOrder;
    }
  }

  lemma {:induction false} PushInOrder(items: seq<string>, seen: set<string>, targets: seq<string>)
    ensures items <= Push(items, seen, targets) && InOrder(Push(items, seen, targets)[|items|..], targets)
  {
    if targets != [] {
      var init, last := targets[..|targets| - 1], targets[|targets| - 1];
      var before := Push(items, seen, init);
      PushInOrder(items, seen, init);
      PushIff(items, seen, init, last);
      var add := last !in seen && last !in before;
      OrderGrows(before[|items|..], init, last, add);
      assert targets == init + [last] && before[|items|..] + [] == before[|items|..];
      assert (before + [last])[|items|..] == before[|items|..] + [last];
      hide InOrder;
    }
  }

  /** What a launch adds it adds behind what was there, in the order of the catalog and of the harnesses. */
  lemma LaunchInOrder(s: Settings, launch: Launch)
    ensures var s' := Launched(s, launch);
            && s.packages.items <= s'.packages.items && s.skills.items <= s'.skills.items
            && InOrder(s'.packages.items[|s.packages.items|..], Sources(launch.catalog))
            && InOrder(s'.skills.items[|s.skills.items|..], launch.present)
  {
    var targets := TargetsOf(launch);
    PushInOrder(s.packages.items, s.packages.seen, targets);
    PushInOrder(s.skills.items, s.skills.seen, launch.present);
    DedupInOrder(Sources(launch.catalog));
    if launch.enabled.Some? {
      KeepInOrder(Dedup(Sources(launch.catalog)), launch.enabled.value);
      OrderChains(targets, Dedup(Sources(launch.catalog)), Sources(launch.catalog));
    }
    var added := Push(s.packages.items, s.packages.seen, targets)[|s.packages.items|..];
    OrderChains(added, targets, Sources(launch.catalog));
    NothingInOrder(Sources(launch.catalog));
    NothingInOrder(launch.present);
    assert s.packages.items[|s.packages.items|..] == [] && s.skills.items[|s.skills.items|..] == [];
    hide InOrder, Push, Dedup, Keep, Sources, ShouldSeed;
  }

  lemma NothingInOrder(whole: seq<string>)
    ensures InOrder([], whole)
  {}

  // ---- Runs ----

  datatype Kind = Packages | Skills | Quiet

  function Of(s: Settings, k: Kind): Seeded {
    match k
    case Packages => s.packages
    case Skills => s.skills
    case Quiet => s.quiet
  }

  /** This step is a launch that puts x in. */
  predicate Adds(s: Settings, e: Event, k: Kind, x: string) {
    e.Start? && x !in Of(s, k).items && x in Of(Step(s, e), k).items
  }

  function Run(s: Settings, es: seq<Event>): Settings
    decreases |es|
  {
    if es == [] then s else Run(Step(s, es[0]), es[1..])
  }

  /** How many launches of a run put x in. */
  function Additions(s: Settings, es: seq<Event>, k: Kind, x: string): nat
    decreases |es|
  {
    if es == [] then 0 else (if Adds(s, es[0], k, x) then 1 else 0) + Additions(Step(s, es[0]), es[1..], k, x)
  }

  lemma ReconciledAt(s: Seeded, targets: seq<string>, x: string)
    ensures s.seen <= Reconciled(s, targets).seen
    ensures x !in s.items && x in Reconciled(s, targets).items ==> x !in s.seen && x in Reconciled(s, targets).seen
    ensures x in s.items ==> x in Reconciled(s, targets).items
  {
    PushIff(s.items, s.seen, targets, x);
  }

  /** The record grows; a launch takes nothing out and adds only what the record does not have yet, then has. */
  lemma StepRespectsRecord(s: Settings, e: Event, k: Kind, x: string)
    ensures Of(s, k).seen <= Of(Step(s, e), k).seen
    ensures Adds(s, e, k, x) ==> x !in Of(s, k).seen && x in Of(Step(s, e), k).seen
    ensures e.Start? && x in Of(s, k).items ==> x in Of(Step(s, e), k).items
  {
    if e.Start? {
      var targets := TargetsOf(e.launch);
      ReconciledAt(s.packages, targets, x);
      ReconciledAt(s.skills, e.launch.present, x);
      ReconciledAt(s.quiet, PatternsOf(e.launch.catalog, targets), x);
      hide Reconciled, TargetsOf, PatternsOf;
    }
  }

  /** Whatever the user removes and however often it is launched, an item is seeded once at most. */
  lemma {:induction false} AddedOnceAtMost(s: Settings, es: seq<Event>, k: Kind, x: string)
    ensures Additions(s, es, k, x) <= if x in Of(s, k).seen then 0 else 1
    ensures Of(s, k).seen <= Of(Run(s, es), k).seen
    decreases |es|
  {
    if es != [] {
      StepRespectsRecord(s, es[0], k, x);
      AddedOnceAtMost(Step(s, es[0]), es[1..], k, x);
      hide Step, Adds;
    }
  }

  /** Once on record and taken out by the user, an item stays out until the user puts it back. */
  lemma {:induction false} RemovedStaysOut(s: Settings, es: seq<Event>, k: Kind, x: string)
    requires x in Of(s, k).seen && x !in Of(s, k).items
    requires forall i :: 0 <= i < |es| && es[i].Edit? ==> x !in (match k
                                                                   case Packages => es[i].packages
                                                                   case Skills => es[i].skills
                                                                   case Quiet => es[i].quiet)
    ensures x !in Of(Run(s, es), k).items
    decreases |es|
  {
    if es != [] {
      StepRespectsRecord(s, es[0], k, x);
      RemovedStaysOut(Step(s, es[0]), es[1..], k, x);
    }
  }

  /**
   * A harness path that is missing at one launch and not among the skills is there after the next
   * one exactly when that launch seeds, finds it and has no record of it: its absence left none.
   */
  lemma LateHarnessIsSeededIff(s: Settings, without: Launch, later: Launch, x: string)
    requires x !in without.present && x !in s.skills.items
    ensures x in Launched(Launched(s, without), later).skills.items <==>
              ShouldSeed(later.switches) && TargetsOf(later) != [] && x in later.present && x !in s.skills.seen
  {
    var s' := Launched(s, without);
    PushIff(s.skills.items, s.skills.seen, without.present, x);
    PushIff(s'.skills.items, s'.skills.seen, later.present, x);
    hide TargetsOf, PatternsOf, ShouldSeed;
  }

  // ---- The seeder ----

  class SettingsManager {
    var settings: Settings

    constructor (settings: Settings)
      ensures this.settings == settings
    {
      this.settings := settings;
    }
  }

  /** One pass over the targets; what was met before this launch decides. */
  method Reconcile(s: Seeded, targets: seq<string>) returns (r: Seeded)
    ensures r == Reconciled(s, targets)
  {
    var items := s.items;
    for i := 0 to |targets|
      invariant items == Push(s.items, s.seen, targets[..i])
    {
      assert targets[..i + 1][..i] == targets[..i];
      if targets[i] in s.seen { continue; }
      if targets[i] !in items { items := items + [targets[i]]; }
    }
    assert targets[..|targets|] == targets;
    r := Seeded(items, s.seen + set t | t in targets);
  }

  method MaybeSeedDefaultPackages(manager: SettingsManager, launch: Launch)
    modifies manager
    ensures manager.settings == Launched(old(manager.settings), launch)
  {
    if !ShouldSeed(launch.switches) { return; }
    var targets := TargetsOf(launch);
    if targets == [] { return; }
    var s := manager.settings;
    var packages := Reconcile(s.packages, targets);
    var skills := Reconcile(s.skills, launch.present);
    var quiet := Reconcile(s.quiet, PatternsOf(launch.catalog, targets));
    manager.settings := Settings(packages, skills, quiet);
  }
}
