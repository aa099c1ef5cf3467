/** packages/coworker-scratchpad/src/cell-tree.ts: the journal as a tree, and the lines it is printed in. */
module CellTree {
  import opened Wrappers
  import opened CellArchive

  /** Nodes are named by cell id; children are in journal order. */
  datatype CellTree = CellTree(
    root: Option<nat>,
    byId: map<nat, CellEntry>,
    children: map<nat, seq<nat>>,
    orphans: seq<nat>)

  // ---- What projectTree computes ----

  function ById(cells: seq<CellEntry>): map<nat, CellEntry> {
    if cells == [] then map[]
    else
      var n := |cells| - 1;
      ById(cells[..n])[cells[n].id := cells[n]]
  }

  function ChildrenOf(cells: seq<CellEntry>, parent: nat): seq<nat> {
    if cells == [] then []
    else
      var n := |cells| - 1;
      ChildrenOf(cells[..n], parent) + if cells[n].parentId == Some(parent) then [cells[n].id] else []
  }

  function Parentless(cells: seq<CellEntry>): seq<nat> {
    if cells == [] then []
    else
      var n := |cells| - 1;
      Parentless(cells[..n]) + if cells[n].parentId.None? then [cells[n].id] else []
  }

  /** Cells whose parent is not in the journal. */
  function Detached(cells: seq<CellEntry>, ids: set<nat>): seq<nat> {
    if cells == [] then []
    else
      var n := |cells| - 1;
      Detached(cells[..n], ids)
      + if cells[n].parentId.Some? && cells[n].parentId.value !in ids then [cells[n].id] else []
  }

  function Project(cells: seq<CellEntry>): CellTree {
    var byId, roots := ById(cells), Parentless(cells);
    CellTree(
      if roots == [] then None else Some(roots[0]),
      byId,
      map id | id in byId :: ChildrenOf(cells, id),
      Detached(cells, byId.Keys) + if roots == [] then [] else roots[1..])
  }

  method IndexCells(cells: seq<CellEntry>) returns (byId: map<nat, CellEntry>)
    ensures byId == ById(cells)
  {
    byId := map[];
    for i := 0 to |cells|
      invariant byId == ById(cells[..i])
    {
      byId := byId[cells[i].id := cells[i]];
      assert cells[..i + 1][..i] == cells[..i];
    }
    assert cells[..|cells|] == cells;
  }

  method LinkCells(cells: seq<CellEntry>, byId: map<nat, CellEntry>)
    returns (children: map<nat, seq<nat>>, roots: seq<nat>, orphans: seq<nat>)
    ensures children == map id | id in byId :: ChildrenOf(cells, id)
    ensures roots == Parentless(cells) && orphans == Detached(cells, byId.Keys)
  {
    children, roots, orphans := map id | id in byId :: [], [], [];
    for i := 0 to |cells|
      invariant children.Keys == byId.Keys && forall id :: id in byId ==> children[id] == ChildrenOf(cells[..i], id)
      invariant roots == Parentless(cells[..i]) && orphans == Detached(cells[..i], byId.Keys)
    {
      var cell := cells[i];
      assert cells[..i + 1][..i] == cells[..i];
      if cell.parentId.None? {
        roots := roots + [cell.id];
      } else if cell.parentId.value in byId {
        children := children[cell.parentId.value := children[cell.parentId.value] + [cell.id]];
      } else {
        orphans := orphans + [cell.id];
      }
    }
    assert cells[..|cells|] == cells;
  }

  method ProjectTree(cells: seq<CellEntry>) returns (tree: CellTree)
    ensures tree == Project(cells)
  {
    var byId := IndexCells(cells);
    var children, roots, orphans := LinkCells(cells, byId);
    var root := None;
    if |roots| >= 1 {
      root := Some(roots[0]);
      orphans := orphans + roots[1..];
    }
    tree := CellTree(root, byId, children, orphans);
  }

  // ---- Roots and orphans of any journal, in its order ----

  ghost predicate Ascending(positions: seq<nat>, n: nat) {
    && (forall i :: 0 <= i < |positions| ==> positions[i] < n)
    && (forall i, j :: 0 <= i < j < |positions| ==> positions[i] < positions[j])
  }

  ghost function IdsAt(cells: seq<CellEntry>, positions: seq<nat>): seq<nat>
    requires Ascending(positions, |cells|)
  {
    seq(|positions|, i requires 0 <= i < |positions| => cells[positions[i]].id)
  }

  lemma IdsAtSnoc(init: seq<CellEntry>, last: CellEntry, positions: seq<nat>)
    requires Ascending(positions, |init|)
    ensures Ascending(positions, |init| + 1) && IdsAt(init + [last], positions) == IdsAt(init, positions)
    ensures Ascending(positions + [|init|], |init| + 1)
    ensures IdsAt(init + [last], positions + [|init|]) == IdsAt(init, positions) + [last.id]
  {}

  lemma {:induction false} ParentlessAt(cells: seq<CellEntry>) returns (at: seq<nat>)
    ensures Ascending(at, |cells|) && Parentless(cells) == IdsAt(cells, at)
    ensures forall i: nat :: i in at <==> i < |cells| && cells[i].parentId.None?
  {
    at := [];
    if cells != [] {
      var init, last := cells[..|cells| - 1], cells[|cells| - 1];
      at := ParentlessAt(init);
      IdsAtSnoc(init, last, at);
      assert cells == init + [last];
      hide Ascending, IdsAt;
      if last.parentId.None? { at := at + [|init|]; }
    }
  }

  predicate Detaches(cell: CellEntry, ids: set<nat>) {
    cell.parentId.Some? && cell.parentId.value !in ids
  }

  lemma {:induction false} DetachedAt(cells: seq<CellEntry>, ids: set<nat>) returns (at: seq<nat>)
    ensures Ascending(at, |cells|) && Detached(cells, ids) == IdsAt(cells, at)
    ensures forall i: nat :: i in at <==> i < |cells| && Detaches(cells[i], ids)
  {
    at := [];
    if cells != [] {
      var init, last := cells[..|cells| - 1], cells[|cells| - 1];
      at := DetachedAt(init, ids);
      IdsAtSnoc(init, last, at);
      assert cells == init + [last];
      hide Ascending, IdsAt;
      if Detaches(last, ids) { at := at + [|init|]; }
    }
  }

  lemma {:induction false} ByIdIff(cells: seq<CellEntry>, id: nat)
    ensures id in ById(cells) <==> exists i :: 0 <= i < |cells| && cells[i].id == id
  {
    if cells != [] {
      var init := cells[..|cells| - 1];
      ByIdIff(init, id);
      assert forall i :: 0 <= i < |init| ==> init[i] == cells[i];
    }
  }

  /**
   * The first cell without parent is the root; orphans are, in the order of the journal, the cells
   * whose parent is not in it, and behind these the other cells without parent.
   */
  lemma ProjectedRoots(cells: seq<CellEntry>) returns (detached: seq<nat>, roots: seq<nat>)
    ensures Ascending(detached, |cells|) && Ascending(roots, |cells|)
    ensures forall i: nat :: i in detached <==>
              && i < |cells| && cells[i].parentId.Some?
              && forall j :: 0 <= j < |cells| ==> Some(cells[j].id) != cells[i].parentId
    ensures forall i: nat :: i in roots <==> i < |cells| && cells[i].parentId.None?
    ensures Project(cells).root == if roots == [] then None else Some(cells[roots[0]].id)
    ensures Project(cells).orphans
         == IdsAt(cells, detached) + if roots == [] then [] else IdsAt(cells, roots)[1..]
  {
    detached := DetachedAt(cells, ById(cells).Keys);
    roots := ParentlessAt(cells);
    forall i: nat | i < |cells| && cells[i].parentId.Some?
      ensures Detaches(cells[i], ById(cells).Keys) <==>
                forall j :: 0 <= j < |cells| ==> Some(cells[j].id) != cells[i].parentId
    {
      ByIdIff(cells, cells[i].parentId.value);
    }
    hide ById, Detached, Parentless;
  }

  // ---- A well-formed journal gives a forest ----

  function Parent(cells: seq<CellEntry>, id: nat): Option<nat> {
    if 1 <= id <= |cells| then cells[id - 1].parentId else None
  }

  lemma {:induction false} ByIdOfJournal(cells: seq<CellEntry>)
    requires ValidJournal(cells)
    ensures forall id :: id in ById(cells) <==> 1 <= id <= |cells|
    ensures forall id :: id in ById(cells) ==> ById(cells)[id] == cells[id - 1]
  {
    if cells != [] {
      ByIdOfJournal(cells[..|cells| - 1]);
    }
  }

  /** Strictly increasing. */
  ghost predicate Rising(ids: seq<nat>) {
    forall i, j :: 0 <= i < j < |ids| ==> ids[i] < ids[j]
  }

  ghost predicate UpTo(ids: seq<nat>, n: nat) {
    forall i :: 0 <= i < |ids| ==> ids[i] <= n
  }

  lemma RisingSnoc(ids: seq<nat>, x: nat)
    requires Rising(ids) && x > 0 && UpTo(ids, x - 1)
    ensures Rising(ids + [x]) && UpTo(ids + [x], x)
  {}

  lemma {:induction false} ChildrenRise(cells: seq<CellEntry>, parent: nat)
    requires ValidJournal(cells)
    ensures Rising(ChildrenOf(cells, parent)) && UpTo(ChildrenOf(cells, parent), |cells|)
  {
    if cells != [] {
      var n := |cells| - 1;
      ChildrenRise(cells[..n], parent);
      RisingSnoc(ChildrenOf(cells[..n], parent), n + 1);
    }
  }

  lemma {:induction false} ChildIff(cells: seq<CellEntry>, parent: nat, c: nat)
    requires ValidJournal(cells)
    ensures c in ChildrenOf(cells, parent) <==> 1 <= c <= |cells| && Parent(cells, c) == Some(parent)
  {
    if cells != [] {
      ChildIff(cells[..|cells| - 1], parent, c);
    }
  }

  lemma ChildrenOfJournal(cells: seq<CellEntry>, parent: nat)
    requires ValidJournal(cells)
    ensures Rising(ChildrenOf(cells, parent))
    ensures forall c :: c in ChildrenOf(cells, parent) <==> 1 <= c <= |cells| && Parent(cells, c) == Some(parent)
    ensures forall c :: c in ChildrenOf(cells, parent) ==> parent < c <= |cells|
  {
    ChildrenRise(cells, parent);
    forall c: nat ensures c in ChildrenOf(cells, parent) <==> 1 <= c <= |cells| && Parent(cells, c) == Some(parent) {
      ChildIff(cells, parent, c);
    }
  }

  lemma {:induction false} ParentlessRise(cells: seq<CellEntry>)
    requires ValidJournal(cells)
    ensures Rising(Parentless(cells)) && UpTo(Parentless(cells), |cells|)
  {
    if cells != [] {
      var n := |cells| - 1;
      ParentlessRise(cells[..n]);
      RisingSnoc(Parentless(cells[..n]), n + 1);
    }
  }

  lemma {:induction false} ParentlessIff(cells: seq<CellEntry>, c: nat)
    requires ValidJournal(cells)
    ensures c in Parentless(cells) <==> 1 <= c <= |cells| && Parent(cells, c) == None
  {
    if cells != [] {
      ParentlessIff(cells[..|cells| - 1], c);
    }
  }

  lemma ParentlessOfJournal(cells: seq<CellEntry>)
    requires ValidJournal(cells)
    ensures Rising(Parentless(cells))
    ensures forall c :: c in Parentless(cells) <==> 1 <= c <= |cells| && Parent(cells, c) == None
  {
    ParentlessRise(cells);
    forall c: nat ensures c in Parentless(cells) <==> 1 <= c <= |cells| && Parent(cells, c) == None {
      ParentlessIff(cells, c);
    }
  }

  lemma {:induction false} NothingDetached(cells: seq<CellEntry>, ids: set<nat>)
    requires ValidJournal(cells) && forall id :: 1 <= id <= |cells| ==> id in ids
    ensures Detached(cells, ids) == []
  {
    if cells != [] {
      NothingDetached(cells[..|cells| - 1], ids);
    }
  }

  /** The reflexive ancestor relation. */
  predicate Ancestor(cells: seq<CellEntry>, a: nat, x: nat)
    requires ValidJournal(cells)
    decreases x
  {
    x == a || (Parent(cells, x).Some? && Ancestor(cells, a, Parent(cells, x).value))
  }

  lemma {:induction false} AncestorIsEarlier(cells: seq<CellEntry>, a: nat, x: nat)
    requires ValidJournal(cells) && Ancestor(cells, a, x)
    ensures a <= x
    decreases x
  {
    if x != a { AncestorIsEarlier(cells, a, Parent(cells, x).value); }
  }

  /** The child of a on the way to a descendant. */
  lemma {:induction false} ChildTowards(cells: seq<CellEntry>, a: nat, x: nat) returns (c: nat)
    requires ValidJournal(cells) && Ancestor(cells, a, x) && x != a
    ensures Parent(cells, c) == Some(a) && Ancestor(cells, c, x) && 1 <= c <= |cells|
    ensures forall d :: Parent(cells, d) == Some(a) && Ancestor(cells, d, x) ==> d == c
    decreases x
  {
    var p := Parent(cells, x).value;
    if p == a {
      c := x;
      forall d | Parent(cells, d) == Some(a) && Ancestor(cells, d, x) ensures d == c {
        if d != x { AncestorIsEarlier(cells, d, a); }
      }
    } else {
      c := ChildTowards(cells, a, p);
      forall d | Parent(cells, d) == Some(a) && Ancestor(cells, d, x) ensures d == c {
        assert d != x;
      }
    }
  }

  /** Every cell hangs below exactly one parentless cell. */
  lemma {:induction false} TopOf(cells: seq<CellEntry>, x: nat) returns (top: nat)
    requires ValidJournal(cells) && 1 <= x <= |cells|
    ensures 1 <= top <= |cells| && Parent(cells, top) == None && Ancestor(cells, top, x)
    ensures forall d :: Parent(cells, d) == None && Ancestor(cells, d, x) ==> d == top
    decreases x
  {
    if Parent(cells, x).None? {
      top := x;
    } else {
      top := TopOf(cells, Parent(cells, x).value);
      forall d | Parent(cells, d) == None && Ancestor(cells, d, x) ensures d == top {
        assert d != x;
      }
    }
  }

  // ---- The printed lines ----

  datatype TextLine = CellLine(depth: nat, lastSibling: bool, cell: CellEntry, marked: bool) | OrphansHeader

  ghost predicate Later(tree: CellTree, above: nat, ids: seq<nat>) {
    forall i :: 0 <= i < |ids| ==> ids[i] in tree.children && above < ids[i]
  }

  /** What rendering needs to terminate: children come after their parent. */
  ghost predicate Forest(tree: CellTree, n: nat) {
    && tree.byId.Keys == tree.children.Keys
    && forall id :: id in tree.children ==> id <= n && Later(tree, id, tree.children[id])
  }

  function NodeLine(tree: CellTree, id: nat, depth: nat, last: bool, leaf: Option<nat>): TextLine
    requires id in tree.byId
  {
    CellLine(depth, last, tree.byId[id], leaf == Some(tree.byId[id].id))
  }

  function Render(tree: CellTree, n: nat, id: nat, depth: nat, last: bool, leaf: Option<nat>): seq<TextLine>
    requires Forest(tree, n) && id in tree.children
    decreases n - id, 1, 0
  {
    [NodeLine(tree, id, depth, last, leaf)] + RenderList(tree, n, id, tree.children[id], depth + 1, leaf)
  }

  function RenderList(tree: CellTree, n: nat, above: nat, ids: seq<nat>, depth: nat, leaf: Option<nat>): seq<TextLine>
    requires Forest(tree, n) && above <= n
    requires Later(tree, above, ids)
    decreases n - above, 0, |ids|
  {
    if ids == [] then []
    else Render(tree, n, ids[0], depth, |ids| == 1, leaf) + RenderList(tree, n, above, ids[1..], depth, leaf)
  }

  ghost predicate TopLevel(tree: CellTree, n: nat) {
    && Forest(tree, n)
    && (tree.root.Some? ==> tree.root.value in tree.children)
    && Later(tree, 0, tree.orphans)
  }

  function Format(tree: CellTree, n: nat, leaf: Option<nat>): seq<TextLine>
    requires TopLevel(tree, n)
  {
    (if tree.root.None? then [] else Render(tree, n, tree.root.value, 0, true, leaf))
    + if tree.orphans == [] then [] else [OrphansHeader] + RenderList(tree, n, 0, tree.orphans, 0, leaf)
  }

  // ---- Each cell exactly once ----

  function Count(lines: seq<TextLine>, id: nat): nat {
    if lines == [] then 0
    else (if lines[0].CellLine? && lines[0].cell.id == id then 1 else 0) + Count(lines[1..], id)
  }

  lemma {:induction false} CountConcat(a: seq<TextLine>, b: seq<TextLine>, id: nat)
    ensures Count(a + b, id) == Count(a, id) + Count(b, id)
  {
    if a == [] {
      assert a + b == b;
    } else {
      assert (a + b)[1..] == a[1..] + b;
      CountConcat(a[1..], b, id);
    }
  }

  predicate InJournal(cells: seq<CellEntry>, cell: CellEntry) {
    1 <= cell.id <= |cells| && cells[cell.id - 1] == cell
  }

  /** The tree of a well-formed journal, as far as rendering looks at it. */
  ghost predicate JournalTree(cells: seq<CellEntry>, tree: CellTree) {
    && Forest(tree, |cells|)
    && (forall id :: id in tree.byId ==> tree.byId[id].id == id && InJournal(cells, tree.byId[id]))
    && (forall id :: id in tree.children <==> 1 <= id <= |cells|)
    && (forall id :: id in tree.children ==> tree.children[id] == ChildrenOf(cells, id))
  }

  lemma MembersLater(tree: CellTree, above: nat, ids: seq<nat>)
    requires forall c :: c in ids ==> c in tree.children && above < c
    ensures Later(tree, above, ids)
  {}

  lemma ProjectChildren(cells: seq<CellEntry>)
    requires ValidJournal(cells)
    ensures JournalTree(cells, Project(cells))
  {
    var tree := Project(cells);
    ByIdOfJournal(cells);
    forall id | id in tree.children ensures Later(tree, id, tree.children[id]) {
      ChildrenOfJournal(cells, id);
      MembersLater(tree, id, ChildrenOf(cells, id));
    }
  }

  lemma ProjectRoots(cells: seq<CellEntry>)
    requires ValidJournal(cells)
    ensures Project(cells).root == if Parentless(cells) == [] then None else Some(Parentless(cells)[0])
    ensures Project(cells).orphans == if Parentless(cells) == [] then [] else Parentless(cells)[1..]
  {
    ByIdOfJournal(cells);
    NothingDetached(cells, ById(cells).Keys);
  }

  lemma RootsLater(cells: seq<CellEntry>, tree: CellTree)
    requires ValidJournal(cells) && JournalTree(cells, tree)
    ensures Later(tree, 0, Parentless(cells))
  {
    var roots := Parentless(cells);
    forall i | 0 <= i < |roots| ensures roots[i] in tree.children && 0 < roots[i] {
      ParentlessIff(cells, roots[i]);
    }
  }

  lemma RootsAtTop(tree: CellTree, n: nat, roots: seq<nat>)
    requires Forest(tree, n) && Later(tree, 0, roots)
    requires tree.root == if roots == [] then None else Some(roots[0])
    requires tree.orphans == if roots == [] then [] else roots[1..]
    ensures TopLevel(tree, n)
  {}

  lemma ProjectIsForest(cells: seq<CellEntry>)
    requires ValidJournal(cells)
    ensures TopLevel(Project(cells), |cells|) && JournalTree(cells, Project(cells))
    ensures Later(Project(cells), 0, Parentless(cells))
  {
    ProjectChildren(cells);
    ProjectRoots(cells);
    assert Forest(Project(cells), |cells|) by { hide Project; }
    hide *;
    RootsLater(cells, Project(cells));
    RootsAtTop(Project(cells), |cells|, Parentless(cells));
  }

  /** The subtree of id shows its descendants, and itself, exactly once. */
  lemma {:induction false} RenderCounts(
    cells: seq<CellEntry>, tree: CellTree, id: nat, depth: nat, last: bool, leaf: Option<nat>, x: nat)
    requires ValidJournal(cells) && JournalTree(cells, tree) && id in tree.children && 1 <= x <= |cells|
    ensures Count(Render(tree, |cells|, id, depth, last, leaf), x) == if Ancestor(cells, id, x) then 1 else 0
    decreases |cells| - id, 1, 0
  {
    var n, kids := |cells|, tree.children[id];
    ChildrenOfJournal(cells, id);
    ListCounts(cells, tree, id, kids, depth + 1, leaf, x);
    var head := [NodeLine(tree, id, depth, last, leaf)];
    CountConcat(head, RenderList(tree, n, id, kids, depth + 1, leaf), x);
    assert head[1..] == [];
    ChildrenAbove(cells, id, x);
  }

  /** Of the children of id, one is above each proper descendant of id and none above other cells. */
  lemma ChildrenAbove(cells: seq<CellEntry>, id: nat, x: nat)
    requires ValidJournal(cells)
    ensures Above(cells, ChildrenOf(cells, id), x) == if x != id && Ancestor(cells, id, x) then 1 else 0
  {
    var kids := ChildrenOf(cells, id);
    ChildrenOfJournal(cells, id);
    if x != id && Ancestor(cells, id, x) {
      var c := ChildTowards(cells, id, x);
      assert c in kids;
      OnlyOneAbove(cells, kids, c, x);
    } else {
      forall c | c in kids ensures !Ancestor(cells, c, x) {
        if Ancestor(cells, c, x) { AncestorOfParent(cells, c, x); }
      }
      NoneAbove(cells, kids, x);
    }
  }

  /** How many of the listed cells are ancestors of x. */
  ghost function Above(cells: seq<CellEntry>, ids: seq<nat>, x: nat): nat
    requires ValidJournal(cells)
  {
    if ids == [] then 0 else (if Ancestor(cells, ids[0], x) then 1 else 0) + Above(cells, ids[1..], x)
  }

  lemma {:induction false} ListCounts(
    cells: seq<CellEntry>, tree: CellTree, above: nat, ids: seq<nat>, depth: nat, leaf: Option<nat>, x: nat)
    requires ValidJournal(cells) && JournalTree(cells, tree) && above <= |cells| && 1 <= x <= |cells|
    requires Later(tree, above, ids)
    ensures Count(RenderList(tree, |cells|, above, ids, depth, leaf), x) == Above(cells, ids, x)
    decreases |cells| - above, 0, |ids|
  {
    if ids != [] {
      var n := |cells|;
      RenderCounts(cells, tree, ids[0], depth, |ids| == 1, leaf, x);
      ListCounts(cells, tree, above, ids[1..], depth, leaf, x);
      var rest := RenderList(tree, n, above, ids[1..], depth, leaf);
      CountConcat(Render(tree, n, ids[0], depth, |ids| == 1, leaf), rest, x);
    }
  }

  /** What is below a child is below its parent. */
  lemma {:induction false} AncestorOfParent(cells: seq<CellEntry>, c: nat, x: nat)
    requires ValidJournal(cells) && Ancestor(cells, c, x) && Parent(cells, c).Some?
    ensures Ancestor(cells, Parent(cells, c).value, x) && Parent(cells, c).value < x
    decreases x
  {
    if x != c { AncestorOfParent(cells, c, Parent(cells, x).value); }
  }

  lemma {:induction false} NoneAbove(cells: seq<CellEntry>, ids: seq<nat>, x: nat)
    requires ValidJournal(cells) && forall c :: c in ids ==> !Ancestor(cells, c, x)
    ensures Above(cells, ids, x) == 0
  {
    if ids != [] { NoneAbove(cells, ids[1..], x); }
  }

  lemma {:induction false} OnlyOneAbove(cells: seq<CellEntry>, ids: seq<nat>, c: nat, x: nat)
    requires ValidJournal(cells) && Rising(ids) && c in ids && Ancestor(cells, c, x)
    requires forall d :: d in ids && Ancestor(cells, d, x) ==> d == c
    ensures Above(cells, ids, x) == 1
  {
    if ids[0] == c {
      forall d | d in ids[1..] ensures !Ancestor(cells, d, x) {
        var i :| 0 <= i < |ids[1..]| && ids[1..][i] == d;
        assert ids[i + 1] == d;
      }
      NoneAbove(cells, ids[1..], x);
    } else {
      OnlyOneAbove(cells, ids[1..], c, x);
    }
  }

  /** The first root, then the others under the header. */
  ghost function FormatOfRoots(tree: CellTree, n: nat, roots: seq<nat>, leaf: Option<nat>): seq<TextLine>
    requires Forest(tree, n) && Later(tree, 0, roots)
  {
    if roots == [] then []
    else
      Render(tree, n, roots[0], 0, true, leaf)
      + if |roots| == 1 then [] else [OrphansHeader] + RenderList(tree, n, 0, roots[1..], 0, leaf)
  }

  lemma FormatShapeOf(tree: CellTree, n: nat, roots: seq<nat>, leaf: Option<nat>)
    requires TopLevel(tree, n) && Later(tree, 0, roots)
    requires tree.root == if roots == [] then None else Some(roots[0])
    requires tree.orphans == if roots == [] then [] else roots[1..]
    ensures Format(tree, n, leaf) == FormatOfRoots(tree, n, roots, leaf)
  {
    hide Render, RenderList;
  }

  lemma FormatShape(cells: seq<CellEntry>, leaf: Option<nat>)
    requires ValidJournal(cells)
    ensures TopLevel(Project(cells), |cells|) && JournalTree(cells, Project(cells))
    ensures Later(Project(cells), 0, Parentless(cells))
    ensures Format(Project(cells), |cells|, leaf) == FormatOfRoots(Project(cells), |cells|, Parentless(cells), leaf)
  {
    hide *;
    ProjectIsForest(cells);
    ProjectRoots(cells);
    FormatShapeOf(Project(cells), |cells|, Parentless(cells), leaf);
  }

  lemma RootsCount(cells: seq<CellEntry>, tree: CellTree, roots: seq<nat>, leaf: Option<nat>, x: nat)
    requires ValidJournal(cells) && JournalTree(cells, tree) && Later(tree, 0, roots) && 1 <= x <= |cells|
    ensures Count(FormatOfRoots(tree, |cells|, roots, leaf), x) == Above(cells, roots, x)
  {
    if roots != [] {
      var first := Render(tree, |cells|, roots[0], 0, true, leaf);
      var rest := RenderList(tree, |cells|, 0, roots[1..], 0, leaf);
      RenderCounts(cells, tree, roots[0], 0, true, leaf, x);
      ListCounts(cells, tree, 0, roots[1..], 0, leaf, x);
      if |roots| > 1 {
        CountConcat(first, [OrphansHeader] + rest, x);
        assert ([OrphansHeader] + rest)[1..] == rest;
      } else {
        assert first + [] == first;
      }
    }
  }

  /** Every cell of a well-formed journal is printed exactly once. */
  lemma FormatShowsEachCellOnce(cells: seq<CellEntry>, leaf: Option<nat>, x: nat)
    requires ValidJournal(cells) && 1 <= x <= |cells|
    ensures TopLevel(Project(cells), |cells|)
    ensures Count(Format(Project(cells), |cells|, leaf), x) == 1
  {
    FormatShape(cells, leaf);
    ParentlessOfJournal(cells);
    RootsCount(cells, Project(cells), Parentless(cells), leaf, x);
    var top := TopOf(cells, x);
    OnlyOneAbove(cells, Parentless(cells), top, x);
  }

  // ---- The indentation alone gives every parent back ----

  /**
   * Reading the lines from the top with the path of the current line: the parent of a line at
   * depth d is the path element at depth d - 1.
   */
  ghost predicate ReadsBack(cells: seq<CellEntry>, lines: seq<TextLine>, path: seq<nat>) {
    if lines == [] then true
    else
      match lines[0]
      case OrphansHeader => ReadsBack(cells, lines[1..], [])
      case CellLine(depth, _, cell, _) =>
        && depth <= |path|
        && InJournal(cells, cell)
        && Parent(cells, cell.id) == (if depth == 0 then None else Some(path[depth - 1]))
        && ReadsBack(cells, lines[1..], path[..depth] + [cell.id])
  }

  /** rest reads back below any path that starts with the given one. */
  ghost predicate ReadsBackUnder(cells: seq<CellEntry>, rest: seq<TextLine>, path: seq<nat>) {
    forall longer :: path <= longer ==> ReadsBack(cells, rest, longer)
  }

  predicate ParentIsEnd(cells: seq<CellEntry>, id: nat, path: seq<nat>) {
    Parent(cells, id) == if path == [] then None else Some(path[|path| - 1])
  }

  lemma LineReadsBack(cells: seq<CellEntry>, line: TextLine, below: seq<TextLine>, path: seq<nat>)
    requires line.CellLine? && line.depth == |path| && InJournal(cells, line.cell)
    requires ParentIsEnd(cells, line.cell.id, path) && ReadsBackUnder(cells, below, path + [line.cell.id])
    ensures ReadsBackUnder(cells, [line] + below, path)
  {
    forall longer | path <= longer ensures ReadsBack(cells, [line] + below, longer) {
      assert ([line] + below)[1..] == below;
      assert longer[..|path|] == path;
    }
  }

  lemma HeaderReadsBack(cells: seq<CellEntry>, below: seq<TextLine>)
    requires ReadsBackUnder(cells, below, [])
    ensures ReadsBackUnder(cells, [OrphansHeader] + below, [])
  {
    assert ([OrphansHeader] + below)[1..] == below;
    assert ReadsBack(cells, below, []);
  }

  lemma LongerPathReadsBack(cells: seq<CellEntry>, rest: seq<TextLine>, path: seq<nat>, id: nat)
    requires ReadsBackUnder(cells, rest, path)
    ensures ReadsBackUnder(cells, rest, path + [id])
  {
    forall longer | path + [id] <= longer ensures ReadsBack(cells, rest, longer) { assert path <= longer; }
  }

  ghost predicate ParentsAreEnd(cells: seq<CellEntry>, ids: seq<nat>, path: seq<nat>) {
    forall i :: 0 <= i < |ids| ==> ParentIsEnd(cells, ids[i], path)
  }

  /** What the children of a journal cell bring to reading them back. */
  lemma KidsReady(cells: seq<CellEntry>, tree: CellTree, id: nat, path: seq<nat>)
    requires ValidJournal(cells) && JournalTree(cells, tree) && id in tree.children
    ensures id <= |cells| && Forest(tree, |cells|) && Later(tree, id, tree.children[id])
    ensures id in tree.byId && tree.byId[id].id == id && InJournal(cells, tree.byId[id])
    ensures ParentsAreEnd(cells, tree.children[id], path + [id])
  {
    var kids := tree.children[id];
    ChildrenOfJournal(cells, id);
    forall i | 0 <= i < |kids| ensures ParentIsEnd(cells, kids[i], path + [id]) { assert kids[i] in kids; }
  }

  lemma FirstReady(cells: seq<CellEntry>, tree: CellTree, above: nat, ids: seq<nat>, path: seq<nat>)
    requires JournalTree(cells, tree) && Later(tree, above, ids) && ids != [] && ParentsAreEnd(cells, ids, path)
    ensures Forest(tree, |cells|) && ids[0] in tree.children && above < ids[0] && Later(tree, above, ids[1..])
    ensures ids[0] <= |cells| && ParentIsEnd(cells, ids[0], path) && ParentsAreEnd(cells, ids[1..], path)
  {}

  lemma NodeLineIs(tree: CellTree, id: nat, depth: nat, last: bool, leaf: Option<nat>)
    requires id in tree.byId
    ensures var line := NodeLine(tree, id, depth, last, leaf);
            line.CellLine? && line.depth == depth && line.cell == tree.byId[id]
  {}

  lemma RenderUnfolds(tree: CellTree, n: nat, id: nat, depth: nat, last: bool, leaf: Option<nat>, rest: seq<TextLine>)
    requires Forest(tree, n) && id in tree.children && id <= n && Later(tree, id, tree.children[id])
    ensures Render(tree, n, id, depth, last, leaf) + rest
         == [NodeLine(tree, id, depth, last, leaf)]
            + (RenderList(tree, n, id, tree.children[id], depth + 1, leaf) + rest)
  {}

  lemma ListUnfolds(
    tree: CellTree, n: nat, above: nat, ids: seq<nat>, depth: nat, leaf: Option<nat>, rest: seq<TextLine>)
    requires Forest(tree, n) && above <= n && Later(tree, above, ids) && ids != []
    ensures RenderList(tree, n, above, ids, depth, leaf) + rest
         == Render(tree, n, ids[0], depth, |ids| == 1, leaf)
            + (RenderList(tree, n, above, ids[1..], depth, leaf) + rest)
  {}

  lemma {:induction false} RenderReadsBack(
    cells: seq<CellEntry>, tree: CellTree, id: nat, last: bool, leaf: Option<nat>, rest: seq<TextLine>, path: seq<nat>)
    requires ValidJournal(cells) && JournalTree(cells, tree) && id in tree.children
    requires ParentIsEnd(cells, id, path) && ReadsBackUnder(cells, rest, path)
    ensures ReadsBackUnder(cells, Render(tree, |cells|, id, |path|, last, leaf) + rest, path)
    decreases |cells| - id, 1, 0
  {
    hide *;
    var kids := tree.children[id];
    KidsReady(cells, tree, id, path);
    LongerPathReadsBack(cells, rest, path, id);
    ListReadsBack(cells, tree, id, kids, leaf, rest, path + [id]);
    var below := RenderList(tree, |cells|, id, kids, |path| + 1, leaf);
    NodeLineIs(tree, id, |path|, last, leaf);
    LineReadsBack(cells, NodeLine(tree, id, |path|, last, leaf), below + rest, path);
    RenderUnfolds(tree, |cells|, id, |path|, last, leaf, rest);
  }

  lemma {:induction false} ListReadsBack(
    cells: seq<CellEntry>, tree: CellTree, above: nat, ids: seq<nat>,
    leaf: Option<nat>, rest: seq<TextLine>, path: seq<nat>)
    requires ValidJournal(cells) && JournalTree(cells, tree) && above <= |cells| && Later(tree, above, ids)
    requires ParentsAreEnd(cells, ids, path) && ReadsBackUnder(cells, rest, path)
    ensures ReadsBackUnder(cells, RenderList(tree, |cells|, above, ids, |path|, leaf) + rest, path)
    decreases |cells| - above, 0, |ids|
  {
    if ids == [] {
      hide ReadsBackUnder, ValidJournal, Parent;
      assert [] + rest == rest;
    } else {
      hide *;
      FirstReady(cells, tree, above, ids, path);
      var others := RenderList(tree, |cells|, above, ids[1..], |path|, leaf);
      ListReadsBack(cells, tree, above, ids[1..], leaf, rest, path);
      RenderReadsBack(cells, tree, ids[0], |ids| == 1, leaf, others + rest, path);
      ListUnfolds(tree, |cells|, above, ids, |path|, leaf, rest);
    }
  }

  lemma RootsReadBack(cells: seq<CellEntry>, tree: CellTree, roots: seq<nat>, leaf: Option<nat>)
    requires ValidJournal(cells) && JournalTree(cells, tree) && Later(tree, 0, roots)
    requires ParentsAreEnd(cells, roots, [])
    ensures ReadsBackUnder(cells, FormatOfRoots(tree, |cells|, roots, leaf), [])
  {
    hide ReadsBackUnder;
    NothingReadsBack(cells);
    if roots != [] {
      var rest: seq<TextLine> := [];
      if |roots| > 1 {
        var others := RenderList(tree, |cells|, 0, roots[1..], 0, leaf);
        ListReadsBack(cells, tree, 0, roots[1..], leaf, [], []);
        assert others + [] == others;
        HeaderReadsBack(cells, others);
        rest := [OrphansHeader] + others;
      }
      RenderReadsBack(cells, tree, roots[0], true, leaf, rest, []);
    }
  }

  /** The printed forest of a well-formed journal reads back to the parent links of the journal. */
  lemma FormatReadsBack(cells: seq<CellEntry>, leaf: Option<nat>)
    requires ValidJournal(cells)
    ensures TopLevel(Project(cells), |cells|)
    ensures ReadsBack(cells, Format(Project(cells), |cells|, leaf), [])
  {
    FormatShape(cells, leaf);
    ParentlessOfJournal(cells);
    var roots := Parentless(cells);
    forall i | 0 <= i < |roots| ensures ParentIsEnd(cells, roots[i], []) { assert roots[i] in roots; }
    RootsReadBack(cells, Project(cells), roots, leaf);
    assert ReadsBackUnder(cells, Format(Project(cells), |cells|, leaf), []);
  }

  lemma NothingReadsBack(cells: seq<CellEntry>)
    ensures ReadsBackUnder(cells, [], [])
  {}

  // ---- Leaves ----

  function Leaves(tree: CellTree): set<nat>
    requires tree.byId.Keys == tree.children.Keys
  {
    set id | id in tree.byId && tree.children[id] == []
  }

  method FindLeaves(tree: CellTree) returns (leaves: set<nat>)
    requires tree.byId.Keys == tree.children.Keys
    ensures leaves == Leaves(tree)
  {
    leaves := {};
    var todo, done := tree.byId.Keys, {};
    while todo != {}
      invariant todo + done == tree.byId.Keys
      invariant leaves == set id | id in done && tree.children[id] == []
      decreases |todo|
    {
      var id :| id in todo;
      if |tree.children[id]| == 0 { leaves := leaves + {id}; }
      todo, done := todo - {id}, done + {id};
    }
  }

  /** The leaves are the cells nothing was appended below. */
  lemma LeafIffNoChild(cells: seq<CellEntry>, x: nat)
    requires ValidJournal(cells)
    ensures TopLevel(Project(cells), |cells|)
    ensures x in Leaves(Project(cells)) <==>
              1 <= x <= |cells| && forall c :: 1 <= c <= |cells| ==> Parent(cells, c) != Some(x)
  {
    ProjectIsForest(cells);
    ByIdOfJournal(cells);
    ChildrenOfJournal(cells, x);
    var kids := ChildrenOf(cells, x);
    if kids != [] { assert kids[0] in kids; }
  }

  /** Every cell lies on the path from some leaf to its root. */
  lemma {:induction false} CellIsAboveSomeLeaf(cells: seq<CellEntry>, x: nat) returns (leaf: nat)
    requires ValidJournal(cells) && 1 <= x <= |cells|
    ensures TopLevel(Project(cells), |cells|)
    ensures leaf in Leaves(Project(cells)) && Ancestor(cells, x, leaf)
    decreases |cells| - x
  {
    ProjectIsForest(cells);
    ChildrenOfJournal(cells, x);
    var kids := ChildrenOf(cells, x);
    if kids == [] {
      leaf := x;
    } else {
      assert kids[0] in kids;
      leaf := CellIsAboveSomeLeaf(cells, kids[0]);
      AncestorOfParent(cells, kids[0], leaf);
    }
  }
}
