/**
 * packages/coworker-vault/src/data-vault.ts: credentials in two directories, the workspace one in
 * front of the global one, each with a sidecar of modification times.
 */
module DataVault {
  import opened Wrappers

  datatype Ref = Ref(engine: string, name: string)

  datatype Entry = Entry(
    engine: string,
    name: string,
    fields: map<string, string>,
    createdAt: string,
    lastModifiedAt: string)

  /** A file that holds an entry, or one that cannot be read as such. */
  datatype Stored = Good(entry: Entry) | Malformed

  datatype Scope = Workspace | Global

  /** A directory that does not exist has no files. */
  datatype Dir = Dir(present: bool, files: map<string, Stored>, sidecar: map<string, string>)

  /** workspace is None when no workspace root is configured. */
  datatype Vault = Vault(global: Dir, workspace: Option<Dir>)

  datatype Error = NoWorkspaceRoot | EntryNotFound | EntryMalformed | RefMalformed

  datatype Result<+T> = Ok(value: T) | Err(error: Error)

  // ---- References ----

  predicate LowerOrDigit(c: char) {
    'a' <= c <= 'z' || '0' <= c <= '9' || c == '-'
  }

  /** [a-z][a-z0-9-]* */
  predicate IsPart(s: string) {
    s != "" && 'a' <= s[0] <= 'z' && forall i :: 0 <= i < |s| ==> LowerOrDigit(s[i])
  }

  predicate IsRef(r: Ref) {
    IsPart(r.engine) && IsPart(r.name)
  }

  function FormatRef(r: Ref): string {
    r.engine + ":" + r.name
  }

  function Colon(s: string): (i: nat)
    ensures i <= |s| && ':' !in s[..i] && (i < |s| ==> s[i] == ':')
  {
    if s == "" || s[0] == ':' then 0 else Colon(s[1..]) + 1
  }

  function ParseRef(s: string): Option<Ref> {
    var i := Colon(s);
    if i < |s| && IsPart(s[..i]) && IsPart(s[i + 1..]) then Some(Ref(s[..i], s[i + 1..])) else None
  }

  lemma {:induction false} ColonAfter(a: string, b: string)
    requires ':' !in a
    ensures Colon(a + ":" + b) == |a|
  {
    if a != "" {
      assert (a + ":" + b)[1..] == a[1..] + ":" + b;
      assert a[0] in a && forall c :: c in a[1..] ==> c in a;
      ColonAfter(a[1..], b);
    }
  }

  /** Parsing inverts formatting on exactly the references whose parts are well formed. */
  lemma ParseFormat(r: Ref)
    ensures ParseRef(FormatRef(r)) == Some(r) <==> IsRef(r)
  {
    if IsRef(r) {
      assert ':' !in r.engine;
      ColonAfter(r.engine, r.name);
      var s := FormatRef(r);
      assert s[..|r.engine|] == r.engine && s[|r.engine| + 1..] == r.name;
    }
  }

  lemma FormatParse(s: string)
    requires ParseRef(s).Some?
    ensures IsRef(ParseRef(s).value) && FormatRef(ParseRef(s).value) == s
  {}

  /** [a-z][a-z0-9-]* on both sides of the first colon. */
  lemma ParseMeans(s: string, a: string, b: string)
    ensures ParseRef(s) == Some(Ref(a, b)) <==>
              && s == a + ":" + b
              && a != "" && 'a' <= a[0] <= 'z' && b != "" && 'a' <= b[0] <= 'z'
              && forall c :: c in a + b ==> 'a' <= c <= 'z' || '0' <= c <= '9' || c == '-'
  {
    PartIs(a);
    PartIs(b);
    ParseFormat(Ref(a, b));
    assert forall c :: c in a + b <==> c in a || c in b;
    if ParseRef(s) == Some(Ref(a, b)) { FormatParse(s); }
    hide IsPart, ParseRef;
  }

  lemma PartIs(s: string)
    ensures IsPart(s) <==>
              s != "" && 'a' <= s[0] <= 'z' && forall c :: c in s ==> 'a' <= c <= 'z' || '0' <= c <= '9' || c == '-'
  {
    assert forall i :: 0 <= i < |s| ==> s[i] in s;
  }

  lemma FormatInjective(a: Ref, b: Ref)
    requires IsRef(a) && IsRef(b) && FormatRef(a) == FormatRef(b)
    ensures a == b
  {
    ParseFormat(a);
    ParseFormat(b);
  }

  // ---- Files ----

  function FileNameFor(r: Ref): string {
    r.engine + "-" + r.name + ".json"
  }

  /** Both parts may carry hyphens, so two references can share a file. */
  lemma SharedFile()
    ensures IsRef(Ref("a-b", "c")) && IsRef(Ref("a", "b-c"))
    ensures FileNameFor(Ref("a-b", "c")) == FileNameFor(Ref("a", "b-c"))
  {
    assert FileNameFor(Ref("a-b", "c")) == "a-b-c.json" == FileNameFor(Ref("a", "b-c"));
  }

  /** Engines without a hyphen never share one. */
  lemma HyphenFreeEngines(a: Ref, b: Ref)
    requires '-' !in a.engine && '-' !in b.engine && FileNameFor(a) == FileNameFor(b)
    ensures a == b
  {
    EngineNoLonger(a, b);
    EngineNoLonger(b, a);
    var f := FileNameFor(a);
    assert a.engine == f[..|a.engine|] == b.engine;
    assert a.name == f[|a.engine| + 1..|f| - 5] == b.name;
  }

  lemma EngineNoLonger(a: Ref, b: Ref)
    requires '-' !in b.engine && FileNameFor(a) == FileNameFor(b)
    ensures |b.engine| <= |a.engine|
  {
    assert FileNameFor(a)[|a.engine|] == '-';
    assert forall i :: 0 <= i < |b.engine| ==> FileNameFor(b)[i] == b.engine[i];
  }

  // ---- Operations ----

  function DirOf(v: Vault, scope: Scope): Dir
    requires scope.Workspace? ==> v.workspace.Some?
  {
    if scope.Workspace? then v.workspace.value else v.global
  }

  function WithDir(v: Vault, scope: Scope, d: Dir): Vault {
    if scope.Workspace? then v.(workspace := Some(d)) else v.(global := d)
  }

  /** The first directory that has the file. */
  function ResolveScope(v: Vault, r: Ref): (s: Option<Scope>)
    ensures s == Some(Workspace) ==> v.workspace.Some?
    ensures s.Some? ==> FileNameFor(r) in DirOf(v, s.value).files
  {
    if v.workspace.Some? && FileNameFor(r) in v.workspace.value.files then Some(Workspace)
    else if FileNameFor(r) in v.global.files then Some(Global)
    else None
  }

  function WriteScope(v: Vault, forceWorkspace: bool): (s: Result<Scope>)
    ensures s == Ok(Workspace) ==> v.workspace.Some?
  {
    if forceWorkspace then if v.workspace.Some? then Ok(Workspace) else Err(NoWorkspaceRoot)
    else if v.workspace.Some? && v.workspace.value.present then Ok(Workspace)
    else Ok(Global)
  }

  function GetOf(v: Vault, r: Ref): Result<Entry> {
    match ResolveScope(v, r)
    case None => Err(EntryNotFound)
    case Some(s) =>
      match DirOf(v, s).files[FileNameFor(r)]
      case Malformed => Err(EntryMalformed)
      case Good(e) => Ok(e)
  }

  function EntryFor(d: Dir, r: Ref, fields: map<string, string>, ts: string): Entry
    requires FileNameFor(r) in d.files ==> d.files[FileNameFor(r)].Good?
  {
    var created := if FileNameFor(r) in d.files then d.files[FileNameFor(r)].entry.createdAt else ts;
    Entry(r.engine, r.name, fields, created, ts)
  }

  /** The directory is made before the old entry is read. */
  function SetIn(d: Dir, r: Ref, fields: map<string, string>, ts: string): (Dir, Option<Error>) {
    var made := d.(present := true);
    if FileNameFor(r) in d.files && d.files[FileNameFor(r)].Malformed? then (made, Some(EntryMalformed))
    else
      (made.(files := d.files[FileNameFor(r) := Good(EntryFor(d, r, fields, ts))],
             sidecar := d.sidecar[FormatRef(r) := ts]), None)
  }

  function SetStep(v: Vault, r: Ref, fields: map<string, string>, forceWorkspace: bool, ts: string)
    : (Vault, Option<Error>)
  {
    match WriteScope(v, forceWorkspace)
    case Err(e) => (v, Some(e))
    case Ok(s) =>
      var (d, error) := SetIn(DirOf(v, s), r, fields, ts);
      (WithDir(v, s, d), error)
  }

  function RemoveIn(d: Dir, r: Ref): Dir {
    d.(files := d.files - {FileNameFor(r)}, sidecar := d.sidecar - {FormatRef(r)})
  }

  function RemoveStep(v: Vault, r: Ref): (Vault, Option<Error>) {
    match ResolveScope(v, r)
    case None => (v, Some(EntryNotFound))
    case Some(s) => (WithDir(v, s, RemoveIn(DirOf(v, s), r)), None)
  }

  function LookupOf(v: Vault, s: string): Result<Option<string>> {
    match ParseRef(s)
    case None => Err(RefMalformed)
    case Some(r) =>
      match ResolveScope(v, r)
      case None => Ok(None)
      case Some(scope) =>
        var sidecar := DirOf(v, scope).sidecar;
        Ok(if s in sidecar then Some(sidecar[s]) else None)
  }

  predicate DirOk(d: Dir) {
    !d.present ==> d.files == map[]
  }

  ghost predicate VaultOk(v: Vault) {
    DirOk(v.global) && (v.workspace.Some? ==> DirOk(v.workspace.value))
  }

  // ---- get after set, and remove ----

  lemma StepsKeepOk(v: Vault, r: Ref, fields: map<string, string>, force: bool, ts: string)
    requires VaultOk(v)
    ensures VaultOk(SetStep(v, r, fields, force, ts).0) && VaultOk(RemoveStep(v, r).0)
  {
    assert v.global.files == map[] ==> v.global.files - {FileNameFor(r)} == map[];
    if v.workspace.Some? {
      assert v.workspace.value.files == map[] ==> v.workspace.value.files - {FileNameFor(r)} == map[];
    }
  }

  /** Whichever scope was written, get returns what was just set; entries in other files stay. */
  lemma GetAfterSet(v: Vault, r: Ref, fields: map<string, string>, force: bool, ts: string, other: Ref)
    requires VaultOk(v)
    ensures var (v', error) := SetStep(v, r, fields, force, ts);
      && (error.None? ==>
            && GetOf(v', r).Ok? && GetOf(v', r).value.fields == fields && GetOf(v', r).value.lastModifiedAt == ts
            && GetOf(v', r).value.engine == r.engine && GetOf(v', r).value.name == r.name)
      && (error.Some? || FileNameFor(other) != FileNameFor(r) ==> GetOf(v', other) == GetOf(v, other))
  {
    hide FormatRef, FileNameFor;
  }

  /**
   * A set goes to the workspace when there is one to use or it is forced, else to the global
   * directory; it writes entry and sidecar line there, keeps the time of creation and touches
   * nothing else.
   */
  lemma SetWritesOneDirectory(v: Vault, r: Ref, fields: map<string, string>, force: bool, ts: string)
    requires SetStep(v, r, fields, force, ts).1.None?
    ensures var v' := SetStep(v, r, fields, force, ts).0;
            if v.workspace.Some? && (force || v.workspace.value.present)
            then && v'.global == v.global && v'.workspace.Some?
                 && Wrote(v.workspace.value, v'.workspace.value, r, fields, ts)
            else v'.workspace == v.workspace && Wrote(v.global, v'.global, r, fields, ts)
  {
    var file, line := r.engine + "-" + r.name + ".json", r.engine + ":" + r.name;
    assert FileNameFor(r) == file && FormatRef(r) == line;
    hide FormatRef, FileNameFor;
  }

  /** d' is d with the entry for r: created when it was before, or now. */
  ghost predicate Wrote(d: Dir, d': Dir, r: Ref, fields: map<string, string>, ts: string) {
    var file := r.engine + "-" + r.name + ".json";
    var created := if file in d.files && d.files[file].Good? then d.files[file].entry.createdAt else ts;
    && d'.present
    && d'.files == d.files[file := Good(Entry(r.engine, r.name, fields, created, ts))]
    && d'.sidecar == d.sidecar[r.engine + ":" + r.name := ts]
  }

  /** A set fails exactly without a workspace to force, or on a file in the chosen directory that cannot be read. */
  lemma SetFailsIff(v: Vault, r: Ref, fields: map<string, string>, force: bool, ts: string)
    ensures var error := SetStep(v, r, fields, force, ts).1;
            var name := r.engine + "-" + r.name + ".json";
            && (error == Some(NoWorkspaceRoot) <==> force && v.workspace.None?)
            && (error == Some(EntryMalformed) <==>
                  if v.workspace.Some? && (force || v.workspace.value.present)
                  then HasMalformed(v.workspace.value, name)
                  else !force && HasMalformed(v.global, name))
            && (error.None? || error == Some(NoWorkspaceRoot) || error == Some(EntryMalformed))
            && (error == Some(NoWorkspaceRoot) ==> SetStep(v, r, fields, force, ts).0 == v)
  {
    hide FormatRef;
  }

  predicate HasMalformed(d: Dir, name: string) {
    name in d.files && d.files[name].Malformed?
  }

  predicate HasEntry(d: Dir, name: string, e: Entry) {
    name in d.files && d.files[name] == Good(e)
  }

  /** The workspace comes first, even with a file that cannot be read. */
  lemma GetFinds(v: Vault, r: Ref, e: Entry)
    ensures var name := r.engine + "-" + r.name + ".json";
            var found := v.workspace.Some? && name in v.workspace.value.files;
            && (GetOf(v, r) == Ok(e) <==>
                  if found then HasEntry(v.workspace.value, name, e) else HasEntry(v.global, name, e))
            && (GetOf(v, r) == Err(EntryMalformed) <==>
                  if found then HasMalformed(v.workspace.value, name) else HasMalformed(v.global, name))
            && (GetOf(v, r) == Err(EntryNotFound) <==> !found && name !in v.global.files)
            && (GetOf(v, r).Err? ==> GetOf(v, r).error in {EntryMalformed, EntryNotFound})
  {}

  /** Removing a workspace entry uncovers the global one. */
  lemma RemoveUncovers(v: Vault, r: Ref, other: Ref)
    ensures RemoveStep(v, r).1 == (if ResolveScope(v, r).None? then Some(EntryNotFound) else None)
    ensures GetOf(RemoveStep(v, r).0, r)
         == if ResolveScope(v, r) == Some(Workspace) then GetOf(v.(workspace := None), r) else Err(EntryNotFound)
    ensures FileNameFor(other) != FileNameFor(r) ==> GetOf(RemoveStep(v, r).0, other) == GetOf(v, other)
  {
    hide FormatRef, FileNameFor;
  }

  /** Removing what was set where nothing was leaves every lookup as before. */
  lemma RemoveUndoesSet(v: Vault, r: Ref, fields: map<string, string>, force: bool, ts: string, other: Ref)
    requires VaultOk(v) && WriteScope(v, force).Ok?
    requires FileNameFor(r) !in DirOf(v, WriteScope(v, force).value).files
    ensures GetOf(RemoveStep(SetStep(v, r, fields, force, ts).0, r).0, other) == GetOf(v, other)
  {
    var s := WriteScope(v, force).value;
    var v' := SetStep(v, r, fields, force, ts).0;
    assert ResolveScope(v', r) == Some(s);
    assert DirOf(RemoveStep(v', r).0, s).files == DirOf(v, s).files;
    hide FormatRef, FileNameFor;
  }

  // ---- The sidecar ----

  /** The entry of a reference and its line in the sidecar, or neither. */
  predicate InSyncAt(d: Dir, r: Ref) {
    if FileNameFor(r) in d.files then
      && d.files[FileNameFor(r)].Good?
      && d.files[FileNameFor(r)].entry.engine == r.engine && d.files[FileNameFor(r)].entry.name == r.name
      && FormatRef(r) in d.sidecar && d.sidecar[FormatRef(r)] == d.files[FileNameFor(r)].entry.lastModifiedAt
    else FormatRef(r) !in d.sidecar
  }

  ghost predicate InSync(v: Vault, refs: set<Ref>) {
    forall r :: r in refs ==> InSyncAt(v.global, r) && (v.workspace.Some? ==> InSyncAt(v.workspace.value, r))
  }

  ghost predicate DistinctFiles(refs: set<Ref>) {
    forall a, b :: a in refs && b in refs && FileNameFor(a) == FileNameFor(b) ==> a == b
  }

  /** The time looked up is the time in the entry get returns, and there is none exactly without an entry. */
  lemma LookupAgrees(v: Vault, refs: set<Ref>, r: Ref)
    requires InSync(v, refs) && r in refs && IsRef(r)
    ensures match GetOf(v, r)
            case Ok(e) => LookupOf(v, FormatRef(r)) == Ok(Some(e.lastModifiedAt))
            case Err(e) => e == EntryNotFound && LookupOf(v, FormatRef(r)) == Ok(None)
  {
    ParseFormat(r);
    hide FormatRef, FileNameFor, ParseRef;
  }

  datatype Event = Set(ref: Ref, fields: map<string, string>, forceWorkspace: bool, ts: string) | Remove(ref: Ref)

  function Step(v: Vault, e: Event): Vault {
    match e
    case Set(r, fields, force, ts) => SetStep(v, r, fields, force, ts).0
    case Remove(r) => RemoveStep(v, r).0
  }

  function Run(v: Vault, es: seq<Event>): Vault
    decreases |es|
  {
    if es == [] then v else Run(Step(v, es[0]), es[1..])
  }

  const EMPTY := Dir(false, map[], map[])

  ghost predicate RunsFromEmpty(ws: Option<Dir>) {
    ws.Some? ==> ws.value == EMPTY
  }

  lemma {:induction false} RunKeepsOk(v: Vault, es: seq<Event>)
    requires VaultOk(v)
    ensures VaultOk(Run(v, es))
    decreases |es|
  {
    if es != [] {
      match es[0] {
        case Set(r, fields, force, ts) => StepsKeepOk(v, r, fields, force, ts);
        case Remove(r) => StepsKeepOk(v, r, map[], false, "");
      }
      RunKeepsOk(Step(v, es[0]), es[1..]);
    }
  }

  ghost predicate Spares(es: seq<Event>, r: Ref) {
    forall i :: 0 <= i < |es| ==> FileNameFor(es[i].ref) != FileNameFor(r)
  }

  /** Calls on other files leave the entry alone. */
  lemma {:induction false} RunSpares(v: Vault, es: seq<Event>, r: Ref)
    requires VaultOk(v) && Spares(es, r)
    ensures GetOf(Run(v, es), r) == GetOf(v, r)
    decreases |es|
  {
    if es != [] {
      RunKeepsOk(v, es[..1]);
      assert Run(v, es[..1]) == Step(v, es[0]) by { assert es[..1][1..] == []; }
      match es[0] {
        case Set(o, fields, force, ts) => GetAfterSet(v, o, fields, force, ts, r);
        case Remove(o) => RemoveUncovers(v, o, r);
      }
      RunSpares(Step(v, es[0]), es[1..], r);
    }
  }

  /** In every run, whatever came before, get returns the last set of a file until the file is touched again. */
  lemma LastSetWins(
    ws: Option<Dir>, before: seq<Event>, after: seq<Event>,
    r: Ref, fields: map<string, string>, force: bool, ts: string)
    requires RunsFromEmpty(ws) && Spares(after, r)
    requires SetStep(Run(Vault(EMPTY, ws), before), r, fields, force, ts).1.None?
    ensures var got := GetOf(Run(Step(Run(Vault(EMPTY, ws), before), Set(r, fields, force, ts)), after), r);
            got.Ok? && got.value.fields == fields && got.value.lastModifiedAt == ts
  {
    var v := Run(Vault(EMPTY, ws), before);
    RunKeepsOk(Vault(EMPTY, ws), before);
    StepsKeepOk(v, r, fields, force, ts);
    GetAfterSet(v, r, fields, force, ts, r);
    RunSpares(Step(v, Set(r, fields, force, ts)), after, r);
  }

  lemma SetInKeepsSync(d: Dir, r: Ref, fields: map<string, string>, ts: string, other: Ref)
    requires IsRef(r) && IsRef(other) && (FileNameFor(r) == FileNameFor(other) ==> r == other)
    requires InSyncAt(d, r) && InSyncAt(d, other)
    ensures InSyncAt(SetIn(d, r, fields, ts).0, other) && SetIn(d, r, fields, ts).1.None?
  {
    if FormatRef(r) == FormatRef(other) { FormatInjective(r, other); }
    hide FormatRef, FileNameFor;
  }

  lemma RemoveInKeepsSync(d: Dir, r: Ref, other: Ref)
    requires IsRef(r) && IsRef(other) && (FileNameFor(r) == FileNameFor(other) ==> r == other)
    requires InSyncAt(d, other)
    ensures InSyncAt(RemoveIn(d, r), other)
  {
    if FormatRef(r) == FormatRef(other) { FormatInjective(r, other); }
    hide FormatRef, FileNameFor;
  }

  lemma StepKeepsSync(v: Vault, e: Event, refs: set<Ref>)
    requires DistinctFiles(refs) && e.ref in refs && (forall r :: r in refs ==> IsRef(r)) && InSync(v, refs)
    ensures InSync(Step(v, e), refs)
  {
    forall other | other in refs
      ensures InSyncAt(Step(v, e).global, other)
      ensures Step(v, e).workspace.Some? ==> InSyncAt(Step(v, e).workspace.value, other)
    {
      match e
      case Set(r, fields, force, ts) =>
        SetInKeepsSync(v.global, r, fields, ts, other);
        if v.workspace.Some? { SetInKeepsSync(v.workspace.value, r, fields, ts, other); }
        hide InSyncAt, SetIn;
      case Remove(r) =>
        RemoveInKeepsSync(v.global, r, other);
        if v.workspace.Some? { RemoveInKeepsSync(v.workspace.value, r, other); }
        hide InSyncAt, RemoveIn;
    }
  }

  ghost predicate Over(es: seq<Event>, refs: set<Ref>) {
    forall i :: 0 <= i < |es| ==> es[i].ref in refs
  }

  lemma {:induction false} RunKeepsSync(v: Vault, es: seq<Event>, refs: set<Ref>)
    requires DistinctFiles(refs) && (forall r :: r in refs ==> IsRef(r)) && InSync(v, refs) && Over(es, refs)
    ensures InSync(Run(v, es), refs)
    decreases |es|
  {
    if es != [] {
      StepKeepsSync(v, es[0], refs);
      RunKeepsSync(Step(v, es[0]), es[1..], refs);
    }
  }

  lemma CollisionBreaksSync(a: Ref, b: Ref)
    requires IsRef(a) && IsRef(b) && a != b && FileNameFor(a) == FileNameFor(b)
    ensures !InSyncAt(Run(Vault(EMPTY, None), [Set(a, map[], false, "1"), Set(b, map[], false, "2")]).global, a)
  {
    if FormatRef(a) == FormatRef(b) { FormatInjective(a, b); }
    var v := Vault(EMPTY, None);
    var es := [Set(a, map[], false, "1"), Set(b, map[], false, "2")];
    var v1 := Step(v, es[0]);
    var v2 := Step(v1, es[1]);
    assert es[1..] == [es[1]] && [es[1]][1..] == [];
    assert Run(v1, [es[1]]) == v2;
    assert Run(v, es) == v2;
    hide FormatRef, FileNameFor;
  }

  /** The sidecars stay right over every run on some references exactly when these have files of their own. */
  lemma SidecarsSyncIff(refs: set<Ref>)
    requires forall r :: r in refs ==> IsRef(r)
    ensures (forall es: seq<Event>, ws: Option<Dir> :: Over(es, refs) && RunsFromEmpty(ws) ==>
               InSync(Run(Vault(EMPTY, ws), es), refs))
            <==> DistinctFiles(refs)
  {
    if DistinctFiles(refs) {
      forall es: seq<Event>, ws: Option<Dir> | Over(es, refs) && RunsFromEmpty(ws)
        ensures InSync(Run(Vault(EMPTY, ws), es), refs)
      {
        RunKeepsSync(Vault(EMPTY, ws), es, refs);
      }
    } else {
      var a, b :| a in refs && b in refs && FileNameFor(a) == FileNameFor(b) && a != b;
      CollisionBreaksSync(a, b);
      var es := [Set(a, map[], false, "1"), Set(b, map[], false, "2")];
      assert Over(es, refs) && !InSync(Run(Vault(EMPTY, None), es), refs);
    }
  }

  // ---- The vault ----

  class LocalDataVault {
    var global: Dir
    var workspace: Option<Dir>

    function View(): Vault
      reads this
    {
      Vault(global, workspace)
    }

    constructor (global: Dir, workspace: Option<Dir>)
      ensures View() == Vault(global, workspace)
    {
      this.global, this.workspace := global, workspace;
    }

    method Store(scope: Scope, d: Dir)
      requires scope.Workspace? ==> workspace.Some?
      modifies this
      ensures View() == WithDir(old(View()), scope, d)
    {
      if scope.Workspace? { workspace := Some(d); } else { global := d; }
    }

    method Set(r: Ref, fields: map<string, string>, forceWorkspace: bool, ts: string) returns (error: Option<Error>)
      modifies this
      ensures (View(), error) == SetStep(old(View()), r, fields, forceWorkspace, ts)
    {
      var target := WriteScope(View(), forceWorkspace);
      if target.Err? { return Some(target.error); }
      var d := DirOf(View(), target.value).(present := true);
      Store(target.value, d);
      var path := FileNameFor(r);
      var created := ts;
      if path in d.files {
        if d.files[path].Malformed? { return Some(EntryMalformed); }
        created := d.files[path].entry.createdAt;
      }
      d := d.(files := d.files[path := Good(Entry(r.engine, r.name, fields, created, ts))]);
      Store(target.value, d);
      Store(target.value, d.(sidecar := d.sidecar[FormatRef(r) := ts]));
      error := None;
    }

    method Get(r: Ref) returns (entry: Result<Entry>)
      ensures entry == GetOf(View(), r)
    {
      var scope := ResolveScope(View(), r);
      if scope.None? { return Err(EntryNotFound); }
      var stored := DirOf(View(), scope.value).files[FileNameFor(r)];
      entry := if stored.Malformed? then Err(EntryMalformed) else Ok(stored.entry);
    }

    method Remove(r: Ref) returns (error: Option<Error>)
      modifies this
      ensures (View(), error) == RemoveStep(old(View()), r)
    {
      var scope := ResolveScope(View(), r);
      if scope.None? { return Some(EntryNotFound); }
      var d := DirOf(View(), scope.value);
      d := d.(files := d.files - {FileNameFor(r)});
      Store(scope.value, d);
      Store(scope.value, d.(sidecar := d.sidecar - {FormatRef(r)}));
      error := None;
    }

    method LookupLastModified(s: string) returns (ts: Result<Option<string>>)
      ensures ts == LookupOf(View(), s)
    {
      var r := ParseRef(s);
      if r.None? { return Err(RefMalformed); }
      var scope := ResolveScope(View(), r.value);
      if scope.None? { return Ok(None); }
      var sidecar := DirOf(View(), scope.value).sidecar;
      ts := Ok(if s in sidecar then Some(sidecar[s]) else None);
    }
  }
}
