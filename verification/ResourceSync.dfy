/**
 * src/resource-loader.ts, lines 286-343 and 758-794: mirroring a bundled directory into the agent
 * directory, and the separate check that looks for stale compiled siblings.
 */
module ResourceSync {
  import opened Wrappers

  type Path = seq<string>

  datatype Node = Dir | File(content: string)

  /** What is below a directory, by relative path. */
  type Tree = map<Path, Node>

  ghost predicate WellFormed(t: Tree) {
    && [] !in t
    && forall p :: p in t && |p| > 1 ==> p[..|p| - 1] in t && t[p[..|p| - 1]].Dir?
  }

  predicate IsFile(t: Tree, p: Path) {
    p in t && t[p].File?
  }

  predicate IsDir(t: Tree, p: Path) {
    p in t && t[p].Dir?
  }

  lemma {:induction false} AncestorsAreDirs(t: Tree, p: Path, k: nat)
    requires WellFormed(t) && p in t && 1 <= k < |p|
    ensures IsDir(t, p[..k])
    decreases |p|
  {
    if k < |p| - 1 {
      AncestorsAreDirs(t, p[..|p| - 1], k);
      assert p[..|p| - 1][..k] == p[..k];
    }
  }

  lemma TopIsDir(t: Tree, p: Path)
    requires WellFormed(t) && p in t && |p| > 1
    ensures IsDir(t, [p[0]])
  {
    AncestorsAreDirs(t, p, 1);
    assert p[..1] == [p[0]];
  }

  // ---- Names ----

  predicate EndsWith(s: string, suffix: string) {
    |s| >= |suffix| && s[|s| - |suffix|..] == suffix
  }

  /** s.replace(/\.ts$/, '.js') and the other way round. */
  function Swap(s: string, from: string, to: string): string {
    if EndsWith(s, from) then s[..|s| - |from|] + to else s
  }

  function ToJs(s: string): string { Swap(s, ".ts", ".js") }

  function ToTs(s: string): string { Swap(s, ".js", ".ts") }

  // ---- What the sync comes to ----

  /** A file next to which the source has the same module in the other form, and not this one. */
  predicate StaleSibling(src: Tree, dest: Tree, p: Path) {
    && |p| == 1 && IsFile(dest, p) && !IsFile(src, p)
    && (IsFile(src, [ToJs(p[0])]) || IsFile(src, [ToTs(p[0])]))
  }

  /** A path in a directory the source brings along. */
  predicate UnderSourceDir(src: Tree, p: Path) {
    p != [] && IsDir(src, [p[0]])
  }

  predicate Survives(src: Tree, dest: Tree, p: Path) {
    p in dest && !StaleSibling(src, dest, p) && !UnderSourceDir(src, p)
  }

  function Mirrored(src: Tree, dest: Tree): Tree {
    map p | p in dest.Keys + src.Keys && (p in src || Survives(src, dest, p)) :: if p in src then src[p] else dest[p]
  }

  /** A file of the source where the destination has a directory. */
  ghost predicate Conflict(src: Tree, dest: Tree) {
    exists p :: |p| == 1 && IsFile(src, p) && IsDir(dest, p)
  }

  lemma MirroredWellFormed(src: Tree, dest: Tree)
    requires WellFormed(src) && WellFormed(dest) && !Conflict(src, dest)
    ensures WellFormed(Mirrored(src, dest))
  {
    var m := Mirrored(src, dest);
    forall p | p in m && |p| > 1 ensures p[..|p| - 1] in m && m[p[..|p| - 1]].Dir? {
      var q := p[..|p| - 1];
      if p !in src {
        assert q in dest && dest[q].Dir?;
        assert q[0] == p[0];
        if q in src && |q| > 1 { TopIsDir(src, q); }
      }
    }
  }

  // ---- What that means by name ----

  /** n and other are the compiled and the source form of one module. */
  predicate OtherModule(n: string, other: string, stem: string) {
    (n == stem + ".ts" && other == stem + ".js") || (n == stem + ".js" && other == stem + ".ts")
  }

  lemma SwapMeaning(n: string, from: string, to: string)
    requires |from| == |to|
    ensures Swap(n, from, to) == n || exists stem :: n == stem + from && Swap(n, from, to) == stem + to
    ensures forall stem :: n == stem + from ==> Swap(n, from, to) == stem + to
  {
    if EndsWith(n, from) { assert n == n[..|n| - |from|] + from; }
    forall stem | n == stem + from ensures Swap(n, from, to) == stem + to {
      assert n[|n| - |from|..] == from && n[..|n| - |from|] == stem;
    }
  }

  /** A top-level file the source does not have stays, unless the source has its module in the other form. */
  lemma FileStaysUnless(src: Tree, dest: Tree, n: string)
    requires [n] in dest && dest[[n]].File? && [n] !in src
    ensures [n] !in Mirrored(src, dest) <==>
              exists stem, other :: OtherModule(n, other, stem) && [other] in src && src[[other]].File?
    ensures [n] in Mirrored(src, dest) ==> Mirrored(src, dest)[[n]] == dest[[n]]
  {
    SwapMeaning(n, ".ts", ".js");
    SwapMeaning(n, ".js", ".ts");
    hide Swap;
    if StaleSibling(src, dest, [n]) {
      if IsFile(src, [ToJs(n)]) {
        var stem :| n == stem + ".ts" && ToJs(n) == stem + ".js";
        assert OtherModule(n, ToJs(n), stem);
      } else {
        var stem :| n == stem + ".js" && ToTs(n) == stem + ".ts";
        assert OtherModule(n, ToTs(n), stem);
      }
    }
  }

  /** The source's paths come as they are; all else under its top-level directories goes; the rest stays. */
  lemma SourceWins(src: Tree, dest: Tree, p: Path)
    ensures p in src ==> p in Mirrored(src, dest) && Mirrored(src, dest)[p] == src[p]
    ensures p !in src && p != [] && [p[0]] in src && src[[p[0]]].Dir? ==> p !in Mirrored(src, dest)
    ensures p !in src && p in dest && (p == [] || !([p[0]] in src && src[[p[0]]].Dir?)) && (|p| > 1 || dest[p].Dir?) ==>
              p in Mirrored(src, dest) && Mirrored(src, dest)[p] == dest[p]
    ensures p !in src && p !in dest ==> p !in Mirrored(src, dest)
  {}

  /** A directory only the destination has keeps everything in it. */
  lemma KeepsOwnDirectories(src: Tree, dest: Tree, p: Path)
    requires WellFormed(src) && p in dest && |p| > 1 && [p[0]] !in src
    ensures p in Mirrored(src, dest) && Mirrored(src, dest)[p] == dest[p]
  {
    if p in src { TopIsDir(src, p); }
  }

  /** A second sync changes nothing. */
  lemma MirrorTwice(src: Tree, dest: Tree)
    requires WellFormed(src)
    ensures Mirrored(src, Mirrored(src, dest)) == Mirrored(src, dest)
  {
    var once := Mirrored(src, dest);
    forall p | p in once ensures p in src || Survives(src, once, p) {
      if p !in src { assert once[p] == dest[p]; }
    }
  }

  // ---- The detector ----

  /** The other form of a compiled or source module; None for any other file. */
  function OtherForm(p: Path): Option<Path> {
    if p == [] then None
    else
      var name := p[|p| - 1];
      if EndsWith(name, ".ts") then Some(p[..|p| - 1] + [ToJs(name)])
      else if EndsWith(name, ".js") then Some(p[..|p| - 1] + [ToTs(name)])
      else None
  }

  predicate StaleAt(installed: set<Path>, source: set<Path>, p: Path) {
    p in installed && p !in source && OtherForm(p).Some? && OtherForm(p).value in source
  }

  predicate HasStale(installed: set<Path>, source: set<Path>) {
    exists p :: p in installed && StaleAt(installed, source, p)
  }

  /** Stale: an installed module the source has, in the same directory, in the other form only. */
  lemma StaleMeaning(installed: set<Path>, source: set<Path>, dir: Path, n: string)
    ensures StaleAt(installed, source, dir + [n]) <==>
              && dir + [n] in installed && dir + [n] !in source
              && exists stem, other :: OtherModule(n, other, stem) && dir + [other] in source
  {
    var p := dir + [n];
    assert p[..|p| - 1] == dir && p[|p| - 1] == n;
    SwapMeaning(n, ".ts", ".js");
    SwapMeaning(n, ".js", ".ts");
    EndsWithIff(n, ".ts");
    EndsWithIff(n, ".js");
    hide Swap, EndsWith;
    if StaleAt(installed, source, p) {
      if EndsWith(n, ".ts") {
        var stem :| n == stem + ".ts";
        assert OtherModule(n, ToJs(n), stem);
      } else {
        var stem :| n == stem + ".js";
        assert OtherModule(n, ToTs(n), stem);
      }
    }
    forall stem, other | OtherModule(n, other, stem) ensures OtherForm(p) == Some(dir + [other]) {
      OneForm(n, stem);
    }
  }

  lemma EndsWithIff(n: string, suffix: string)
    ensures EndsWith(n, suffix) <==> exists stem :: n == stem + suffix
  {
    if EndsWith(n, suffix) { assert n == n[..|n| - |suffix|] + suffix; }
    forall stem | n == stem + suffix ensures EndsWith(n, suffix) { assert n[|n| - |suffix|..] == suffix; }
  }

  lemma OneForm(n: string, stem: string)
    ensures n == stem + ".js" ==> !exists s :: n == s + ".ts"
  {
    assert n == stem + ".js" ==> n[|n| - 2] == 'j';
    assert forall s :: n == s + ".ts" ==> n[|n| - 2] == 't';
  }

  function FilesOf(t: Tree): set<Path> {
    set p | p in t && t[p].File?
  }

  /** The detector, which looks at all depths, finds nothing after a sync, which prunes only at the top. */
  lemma NothingStaleAfterSync(src: Tree, dest: Tree)
    requires WellFormed(src)
    ensures !HasStale(FilesOf(Mirrored(src, dest)), FilesOf(src))
  {
    var m := Mirrored(src, dest);
    forall p | p in FilesOf(m) ensures !StaleAt(FilesOf(m), FilesOf(src), p) {
      if p !in src && OtherForm(p).Some? {
        var q := OtherForm(p).value;
        if |p| == 1 {
          assert !StaleSibling(src, dest, p) && p == [p[0]];
          assert q == [ToJs(p[0])] || q == [ToTs(p[0])];
        } else if q in src {
          TopIsDir(src, q);
        }
      }
    }
  }

  // ---- The methods ----

  function Entries(t: Tree, at: Path): set<string> {
    set p | p in t && |p| == |at| + 1 && p[..|at|] == at :: p[|at|]
  }

  function Below(t: Tree, at: Path): set<Path> {
    set p | p in t && |p| > |at| && p[..|at|] == at
  }

  /** The paths below at that go through one of the names. */
  function Part(t: Tree, at: Path, names: set<string>): set<Path> {
    set p | p in t && |p| > |at| && p[..|at|] == at && p[|at|] in names
  }

  function Copied(src: Tree, dest: Tree, paths: set<Path>): Tree
    requires paths <= src.Keys
  {
    map p | p in dest.Keys + paths :: if p in paths then src[p] else dest[p]
  }

  lemma EntryInTree(t: Tree, at: Path, name: string)
    ensures name in Entries(t, at) <==> at + [name] in t
  {
    if name in Entries(t, at) {
      var p :| p in t && |p| == |at| + 1 && p[..|at|] == at && p[|at|] == name;
      assert p == at + [name];
    }
    if at + [name] in t {
      assert (at + [name])[..|at|] == at && (at + [name])[|at|] == name;
    }
  }

  lemma EntryAbove(t: Tree, at: Path, p: Path)
    requires WellFormed(t) && p in t && |p| > |at| && p[..|at|] == at
    ensures p[|at|] in Entries(t, at)
  {
    var q := p[..|at| + 1];
    if |p| > |at| + 1 { AncestorsAreDirs(t, p, |at| + 1); } else { assert q == p; }
    assert q[..|at|] == at;
  }

  lemma PartOfEntries(t: Tree, at: Path)
    requires WellFormed(t)
    ensures Part(t, at, Entries(t, at)) == Below(t, at)
  {
    forall p | p in Below(t, at) ensures p[|at|] in Entries(t, at) { EntryAbove(t, at, p); }
    hide Entries, WellFormed;
  }

  lemma PartGrowsAt(t: Tree, at: Path, names: set<string>, name: string, p: Path)
    requires p in t
    ensures p in Part(t, at, names + {name}) <==> p in Part(t, at, names) + {at + [name]} + Below(t, at + [name])
  {
    var entry := at + [name];
    if |p| > |at| {
      assert p[..|at| + 1] == p[..|at|] + [p[|at|]];
      if |p| == |entry| { assert p[..|entry|] == p; }
      if p[..|entry|] == entry { assert p[..|entry|][..|at|] == p[..|at|] && p[|at|] == entry[|at|]; }
    }
  }

  /** One name more: its entry and, for a directory, what is below it. */
  lemma PartGrows(t: Tree, at: Path, names: set<string>, name: string)
    requires WellFormed(t) && at + [name] in t
    ensures Part(t, at, names + {name}) == Part(t, at, names) + {at + [name]} + Below(t, at + [name])
    ensures t[at + [name]].File? ==> Below(t, at + [name]) == {}
  {
    var entry := at + [name];
    forall p | p in Below(t, entry) ensures IsDir(t, entry) { AncestorsAreDirs(t, p, |entry|); }
    forall p | p in t
      ensures p in Part(t, at, names + {name}) <==> p in Part(t, at, names) + {entry} + Below(t, entry)
    {
      PartGrowsAt(t, at, names, name, p);
    }
    assert Part(t, at, names + {name}) <= t.Keys && Part(t, at, names) <= t.Keys && Below(t, entry) <= t.Keys;
    hide Part, Below, WellFormed;
  }

  lemma CopiedTwice(src: Tree, dest: Tree, a: set<Path>, b: set<Path>)
    requires a <= src.Keys && b <= src.Keys
    ensures Copied(src, Copied(src, dest, a), b) == Copied(src, dest, a + b)
  {}

  /** Nothing in the way: no file of the source on a directory, no directory on a file. */
  ghost predicate Fits(src: Tree, dest: Tree, paths: set<Path>) {
    forall p :: p in paths && p in src && p in dest ==> (src[p].Dir? <==> dest[p].Dir?)
  }

  lemma FitsAfterCopy(src: Tree, dest: Tree, a: set<Path>, b: set<Path>)
    requires a <= src.Keys && Fits(src, dest, a)
    ensures Fits(src, Copied(src, dest, a), b) <==> Fits(src, dest, b)
  {
    if Fits(src, Copied(src, dest, a), b) {
      forall p | p in b && p in src && p in dest ensures src[p].Dir? <==> dest[p].Dir? {
        assert p in Copied(src, dest, a);
      }
    }
  }

  lemma FitsUnion(src: Tree, dest: Tree, a: set<Path>, b: set<Path>)
    ensures Fits(src, dest, a + b) <==> Fits(src, dest, a) && Fits(src, dest, b)
  {}

  /** Some of the paths were copied, without running into anything. */
  ghost predicate PartlyCopied(src: Tree, dest: Tree, copied: Tree, paths: set<Path>) {
    exists done: set<Path> :: done <= paths && PartIs(src, dest, copied, done)
  }

  ghost predicate PartIs(src: Tree, dest: Tree, copied: Tree, done: set<Path>) {
    done <= src.Keys && Fits(src, dest, done) && copied == Copied(src, dest, done)
  }

  /** The rest of a copy is a part of the whole. */
  lemma PartOfRest(
    src: Tree, dest: Tree, before: Tree, copied: Tree, done: set<Path>, rest: set<Path>, paths: set<Path>)
    requires done <= src.Keys && Fits(src, dest, done) && before == Copied(src, dest, done)
    requires done <= paths && rest <= paths && PartlyCopied(src, before, copied, rest)
    ensures PartlyCopied(src, dest, copied, paths)
  {
    var more: set<Path> :| more <= rest && PartIs(src, before, copied, more);
    FitsOneMore(src, dest, done, more);
    hide Fits, Copied;
    assert done + more <= paths && PartIs(src, dest, copied, done + more);
  }

  lemma PartInWhole(src: Tree, dest: Tree, copied: Tree, part: set<Path>, whole: set<Path>)
    requires PartlyCopied(src, dest, copied, part) && part <= whole
    ensures PartlyCopied(src, dest, copied, whole)
  {
    hide PartIs;
  }

  /** Every path is the source's or the destination's, and none of the destination's is lost. */
  lemma PartlyCopiedMeaning(src: Tree, dest: Tree, copied: Tree, paths: set<Path>, p: Path)
    requires PartlyCopied(src, dest, copied, paths)
    ensures p in dest ==> p in copied && (copied[p].Dir? <==> dest[p].Dir?)
    ensures p in copied ==>
              (p in paths && p in src && copied[p] == src[p]) || (p in dest && copied[p] == dest[p])
  {
    var done: set<Path> :| done <= paths && PartIs(src, dest, copied, done);
  }

  /** One file or the directory itself; false where something of the other kind is in the way. */
  method CopyEntry(src: Tree, entry: Path, dest: Tree) returns (copied: Tree, ok: bool)
    requires entry in src
    ensures ok <==> Fits(src, dest, {entry})
    ensures copied == if ok then Copied(src, dest, {entry}) else dest
  {
    copied := dest;
    if entry in dest && dest[entry].Dir? != src[entry].Dir? { return dest, false; }
    copied := dest[entry := src[entry]];
    ok := true;
    assert copied == Copied(src, dest, {entry});
  }

  lemma BelowShrinks(t: Tree, at: Path, name: string)
    requires at + [name] in t
    ensures |Below(t, at + [name])| < |Below(t, at)|
  {
    var entry := at + [name];
    assert entry in Below(t, at) && entry !in Below(t, entry);
    forall p | p in Below(t, entry) ensures p in Below(t, at) { assert p[..|at|] == p[..|entry|][..|at|] == at; }
    Smaller(Below(t, entry), Below(t, at), entry);
  }

  lemma Smaller<T>(a: set<T>, b: set<T>, x: T)
    requires a <= b && x in b && x !in a
    ensures |a| < |b|
  {
    var rest := b - a;
    assert x in rest && b == a + rest;
  }

  /** copyDirRecursive, in whatever order the directory is read. */
  method CopyDirRecursive(src: Tree, at: Path, dest: Tree) returns (copied: Tree, ok: bool)
    requires WellFormed(src)
    ensures ok <==> Fits(src, dest, Below(src, at))
    ensures ok ==> copied == Copied(src, dest, Below(src, at))
    ensures PartlyCopied(src, dest, copied, Below(src, at))
    decreases |Below(src, at)|, 1
  {
    hide Fits, Copied, Below, Part, Entries, WellFormed, PartlyCopied;
    copied, ok := dest, true;
    var todo, done := Entries(src, at), {};
    NothingCopied(src, dest, at);
    PartOfEntries(src, at);
    while todo != {}
      invariant todo + done == Entries(src, at)
      invariant Part(src, at, done) <= src.Keys
      invariant Fits(src, dest, Part(src, at, done))
      invariant copied == Copied(src, dest, Part(src, at, done))
      decreases |todo|
    {
      var name :| name in todo;
      EntryInTree(src, at, name);
      copied, ok := CopyName(src, at, dest, done, copied, name);
      if !ok {
        NotFitting(src, at, dest, done + {name});
        PartInWhole(src, dest, copied, Part(src, at, done + {name}), Below(src, at));
        return;
      }
      todo, done := todo - {name}, done + {name};
    }
    assert done == Entries(src, at);
    AllCopied(src, dest, Below(src, at));
  }

  lemma AllCopied(src: Tree, dest: Tree, paths: set<Path>)
    requires paths <= src.Keys && Fits(src, dest, paths)
    ensures PartlyCopied(src, dest, Copied(src, dest, paths), paths)
  {
    assert PartIs(src, dest, Copied(src, dest, paths), paths);
  }

  lemma NothingCopied(src: Tree, dest: Tree, at: Path)
    ensures Part(src, at, {}) == {} && Fits(src, dest, {}) && Copied(src, dest, {}) == dest
  {}

  lemma PartInTree(t: Tree, at: Path, names: set<string>)
    ensures Part(t, at, names) <= t.Keys && Below(t, at) <= t.Keys
  {}

  lemma NotFitting(src: Tree, at: Path, dest: Tree, names: set<string>)
    requires !Fits(src, dest, Part(src, at, names))
    ensures !Fits(src, dest, Below(src, at)) && Part(src, at, names) <= Below(src, at)
  {
    assert Part(src, at, names) <= Below(src, at);
  }

  /** An entry and, if it is a directory, all below it, after the names that are done. */
  method CopyName(src: Tree, at: Path, ghost dest: Tree, ghost done: set<string>, before: Tree, name: string)
    returns (copied: Tree, ok: bool)
    requires WellFormed(src) && at + [name] in src && Part(src, at, done) <= src.Keys
    requires Fits(src, dest, Part(src, at, done)) && before == Copied(src, dest, Part(src, at, done))
    ensures Part(src, at, done + {name}) <= src.Keys
    ensures ok <==> Fits(src, dest, Part(src, at, done + {name}))
    ensures ok ==> copied == Copied(src, dest, Part(src, at, done + {name}))
    ensures PartlyCopied(src, dest, copied, Part(src, at, done + {name}))
    decreases |Below(src, at)|, 0
  {
    var entry := at + [name];
    ghost var part, below := Part(src, at, done), Below(src, entry);
    ghost var through, all := part + {entry}, Part(src, at, done + {name});
    PartGrows(src, at, done, name);
    PartInTree(src, at, done + {name});
    hide *;
    FitsOneMore(src, dest, part, {entry});
    copied, ok := CopyEntry(src, entry, before);
    if !ok {
      FitsUnion(src, dest, through, below);
      AllCopied(src, dest, part);
      PartInWhole(src, dest, copied, part, all);
      return;
    }
    BelowShrinks(src, at, name);
    copied, ok := CopyBelow(src, entry, dest, through, copied);
  }

  /** What is below an entry, once the entry is there. */
  method CopyBelow(src: Tree, entry: Path, ghost dest: Tree, ghost through: set<Path>, before: Tree)
    returns (copied: Tree, ok: bool)
    requires WellFormed(src) && entry in src && (src[entry].File? ==> Below(src, entry) == {})
    requires through <= src.Keys && Below(src, entry) <= src.Keys
    requires Fits(src, dest, through) && before == Copied(src, dest, through)
    ensures ok <==> Fits(src, dest, through + Below(src, entry))
    ensures ok ==> copied == Copied(src, dest, through + Below(src, entry))
    ensures PartlyCopied(src, dest, copied, through + Below(src, entry))
    decreases |Below(src, entry)|, 2
  {
    hide *;
    ghost var below := Below(src, entry);
    FitsOneMore(src, dest, through, below);
    if src[entry].Dir? {
      copied, ok := CopyDirRecursive(src, entry, before);
      PartOfRest(src, dest, before, copied, through, below, through + below);
    } else {
      copied, ok := before, true;
      assert through + below == through;
      AllCopied(src, dest, through);
    }
  }

  /** Copying in two goes. */
  lemma FitsOneMore(src: Tree, dest: Tree, a: set<Path>, b: set<Path>)
    requires a <= src.Keys && b <= src.Keys && Fits(src, dest, a)
    ensures Fits(src, Copied(src, dest, a), b) <==> Fits(src, dest, a + b)
    ensures Copied(src, Copied(src, dest, a), b) == Copied(src, dest, a + b)
  {
    FitsAfterCopy(src, dest, a, b);
    FitsUnion(src, dest, a, b);
    CopiedTwice(src, dest, a, b);
    hide *;
  }

  // ---- The whole sync ----

  /** dest without the stale siblings among the given names. */
  function Pruned(src: Tree, dest: Tree, names: set<string>): Tree {
    map p | p in dest && !(StaleSibling(src, dest, p) && p[0] in names) :: dest[p]
  }

  /** dest without everything at or below the given names. */
  function Cleared(dest: Tree, names: set<string>): Tree {
    map p | p in dest && !(p != [] && p[0] in names) :: dest[p]
  }

  function SourceDirs(src: Tree): set<string> {
    set p | p in src && |p| == 1 && src[p].Dir? :: p[0]
  }

  lemma SourceDirIff(src: Tree, name: string)
    ensures name in SourceDirs(src) <==> IsDir(src, [name])
  {
    if name in SourceDirs(src) {
      var p :| p in src && |p| == 1 && src[p].Dir? && p[0] == name;
      assert p == [name];
    }
  }

  method PruneStaleSiblingFiles(src: Tree, dest: Tree) returns (pruned: Tree)
    ensures pruned == Pruned(src, dest, Entries(dest, []))
  {
    pruned := dest;
    var todo, done := Entries(dest, []), {};
    assert dest == Pruned(src, dest, {});
    while todo != {}
      invariant todo + done == Entries(dest, [])
      invariant pruned == Pruned(src, dest, done)
      decreases |todo|
    {
      var name :| name in todo;
      PruneOne(src, dest, done, name);
      if IsFile(dest, [name]) && !IsFile(src, [name]) && (IsFile(src, [ToJs(name)]) || IsFile(src, [ToTs(name)])) {
        pruned := pruned - {[name]};
      }
      todo, done := todo - {name}, done + {name};
    }
  }

  lemma PruneOne(src: Tree, dest: Tree, names: set<string>, name: string)
    ensures Pruned(src, dest, names + {name})
         == if StaleSibling(src, dest, [name]) then Pruned(src, dest, names) - {[name]} else Pruned(src, dest, names)
  {
    forall p | p in dest && StaleSibling(src, dest, p) && p[0] == name ensures p == [name] {}
  }

  method RemoveSourceDirs(src: Tree, dest: Tree) returns (cleared: Tree)
    ensures cleared == Cleared(dest, SourceDirs(src))
  {
    cleared := dest;
    var todo, done := SourceDirs(src), {};
    assert dest == Cleared(dest, {});
    while todo != {}
      invariant todo + done == SourceDirs(src)
      invariant cleared == Cleared(dest, done)
      decreases |todo|
    {
      var name :| name in todo;
      cleared := map p | p in cleared && !(p != [] && p[0] == name) :: cleared[p];
      todo, done := todo - {name}, done + {name};
      assert cleared == Cleared(dest, done);
    }
  }

  lemma PrunedAll(src: Tree, dest: Tree, p: Path)
    ensures p in Pruned(src, dest, Entries(dest, [])) <==> p in dest && !StaleSibling(src, dest, p)
    ensures p in Pruned(src, dest, Entries(dest, [])) ==> Pruned(src, dest, Entries(dest, []))[p] == dest[p]
  {
    if StaleSibling(src, dest, p) {
      assert [] + [p[0]] == p;
      EntryInTree(dest, [], p[0]);
    }
  }

  /** What the copy lands on. */
  function Prepared(src: Tree, dest: Tree): Tree {
    Cleared(Pruned(src, dest, Entries(dest, [])), SourceDirs(src))
  }

  lemma PreparedAt(src: Tree, dest: Tree, p: Path)
    requires [] !in dest
    ensures p in Prepared(src, dest) <==> Survives(src, dest, p)
    ensures p in Prepared(src, dest) ==> Prepared(src, dest)[p] == dest[p]
  {
    PrunedAll(src, dest, p);
    if p != [] { SourceDirIff(src, p[0]); }
  }

  /** Pruning, clearing and copying come to one mirror image. */
  lemma SyncIsMirror(src: Tree, dest: Tree)
    requires [] !in dest
    ensures Copied(src, Prepared(src, dest), src.Keys) == Mirrored(src, dest)
  {
    var copied := Copied(src, Prepared(src, dest), src.Keys);
    forall p ensures p in copied <==> p in Mirrored(src, dest) { PreparedAt(src, dest, p); }
    forall p | p in Mirrored(src, dest) ensures copied[p] == Mirrored(src, dest)[p] {
      PreparedAt(src, dest, p);
    }
  }

  lemma FitsUnlessConflict(src: Tree, dest: Tree)
    requires WellFormed(src) && WellFormed(dest)
    ensures Fits(src, Prepared(src, dest), src.Keys) <==> !Conflict(src, dest)
  {
    forall p ensures p in Prepared(src, dest) <==> Survives(src, dest, p) { PreparedAt(src, dest, p); }
    if Conflict(src, dest) {
      var p :| |p| == 1 && IsFile(src, p) && IsDir(dest, p);
      assert p == [p[0]] && Survives(src, dest, p);
      PreparedAt(src, dest, p);
    } else {
      forall p | p in src && p in Prepared(src, dest) ensures src[p].Dir? <==> Prepared(src, dest)[p].Dir? {
        PreparedAt(src, dest, p);
        if |p| > 1 { TopIsDir(src, p); } else { assert p == [p[0]]; }
      }
    }
  }

  /** None stands for a directory that does not exist; the call fails exactly on a conflict, partly done. */
  method SyncResourceDir(src: Option<Tree>, dest: Option<Tree>) returns (synced: Option<Tree>, ok: bool)
    requires src.Some? ==> WellFormed(src.value)
    requires dest.Some? ==> WellFormed(dest.value)
    ensures src.None? ==> ok && synced == dest
    ensures src.Some? ==> (ok <==> !Conflict(src.value, dest.GetOr(map[])))
    ensures src.Some? && ok ==> synced == Some(Mirrored(src.value, dest.GetOr(map[])))
    ensures src.Some? ==>
              && synced.Some?
              && PartlyCopied(src.value, Prepared(src.value, dest.GetOr(map[])), synced.value, src.value.Keys)
  {
    synced, ok := dest, true;
    if src.None? { return; }
    var d := dest.GetOr(map[]);
    FitsUnlessConflict(src.value, d);
    SyncIsMirror(src.value, d);
    assert Below(src.value, []) == src.value.Keys by {
      forall p | p in src.value ensures p[..0] == [] {}
    }
    hide Fits, Copied, Mirrored, Conflict, Pruned, Cleared, PartlyCopied;
    var pruned := PruneStaleSiblingFiles(src.value, d);
    var cleared := RemoveSourceDirs(src.value, pruned);
    var copied;
    copied, ok := CopyDirRecursive(src.value, [], cleared);
    synced := Some(copied);
  }

  // ---- The detector's own walk ----

  function FilesIn(t: Tree, paths: set<Path>): set<Path> {
    set p | p in paths && IsFile(t, p)
  }

  lemma FilesOfPart(t: Tree, at: Path, names: set<string>, name: string)
    requires WellFormed(t) && at + [name] in t
    ensures FilesIn(t, Part(t, at, names + {name}))
         == FilesIn(t, Part(t, at, names))
            + if t[at + [name]].File? then {at + [name]} else FilesIn(t, Below(t, at + [name]))
  {
    PartGrows(t, at, names, name);
  }

  /** Every file below at, by its path from the root. */
  method Visit(t: Tree, at: Path) returns (files: set<Path>)
    requires WellFormed(t)
    ensures files == FilesIn(t, Below(t, at))
    decreases |Below(t, at)|
  {
    files := {};
    var todo, done := Entries(t, at), {};
    PartOfEntries(t, at);
    NothingCopied(t, t, at);
    assert FilesIn(t, {}) == {};
    hide Below, Entries, WellFormed, Part, FilesIn;
    while todo != {}
      invariant todo + done == Entries(t, at)
      invariant files == FilesIn(t, Part(t, at, done))
      decreases |todo|
    {
      var name :| name in todo;
      EntryInTree(t, at, name);
      FilesOfPart(t, at, done, name);
      var found := VisitEntry(t, at, name);
      files := files + found;
      todo, done := todo - {name}, done + {name};
    }
  }

  method VisitEntry(t: Tree, at: Path, name: string) returns (files: set<Path>)
    requires WellFormed(t) && at + [name] in t
    ensures files == if t[at + [name]].File? then {at + [name]} else FilesIn(t, Below(t, at + [name]))
    decreases |Below(t, at)|, 0
  {
    if t[at + [name]].File? { return {at + [name]}; }
    BelowShrinks(t, at, name);
    files := Visit(t, at + [name]);
  }

  method HasStaleCompiledExtensionSiblings(installed: Option<Tree>, source: Option<Tree>) returns (stale: bool)
    requires installed.Some? ==> WellFormed(installed.value)
    requires source.Some? ==> WellFormed(source.value)
    ensures stale <==> HasStale(FilesOf(installed.GetOr(map[])), FilesOf(source.GetOr(map[])))
  {
    if installed.None? { return false; }
    var sourceFiles := Visit(source.GetOr(map[]), []);
    var installedFiles := Visit(installed.value, []);
    RootIsAll(source.GetOr(map[]));
    RootIsAll(installed.value);
    var todo, done := installedFiles, {};
    while todo != {}
      invariant todo + done == installedFiles
      invariant forall p :: p in done ==> !StaleAt(installedFiles, sourceFiles, p)
      decreases |todo|
    {
      var p :| p in todo;
      if p !in sourceFiles && OtherForm(p).Some? && OtherForm(p).value in sourceFiles { return true; }
      todo, done := todo - {p}, done + {p};
    }
    stale := false;
  }

  lemma RootIsAll(t: Tree)
    requires WellFormed(t)
    ensures FilesIn(t, Below(t, [])) == FilesOf(t)
  {
    forall p | p in t ensures p[..0] == [] && p in Below(t, []) {}
  }
}
