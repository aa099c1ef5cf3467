/** packages/coworker-scratchpad/src/cell-archive.ts: the append-only journal of one scratchpad. */
module CellArchive {
  import opened Wrappers

  datatype AppendInput = AppendInput(code: string, ok: bool, outcome: string, stdout: string)

  datatype CellEntry = CellEntry(id: nat, parentId: Option<nat>, input: AppendInput)

  /** A line of cells.jsonl: the header, a cell, or one that does not parse. */
  datatype Line = Header | Cell(entry: CellEntry) | Corrupt

  function CellsOf(lines: seq<Line>): seq<CellEntry> {
    if lines == [] then []
    else
      var n := |lines| - 1;
      CellsOf(lines[..n]) + if lines[n].Cell? then [lines[n].entry] else []
  }

  /** The id of the last cell line. */
  function ScanLastId(lines: seq<Line>): Option<nat> {
    if lines == [] then None
    else
      var n := |lines| - 1;
      if lines[n].Cell? then Some(lines[n].entry.id) else ScanLastId(lines[..n])
  }

  lemma {:induction false} ScanIsLastCell(lines: seq<Line>)
    ensures ScanLastId(lines) == LastIdOf(CellsOf(lines))
  {
    if lines != [] {
      ScanIsLastCell(lines[..|lines| - 1]);
    }
  }

  function LastIdOf(cells: seq<CellEntry>): Option<nat> {
    if cells == [] then None else Some(cells[|cells| - 1].id)
  }

  /** Ids are 1, 2, ... and every parent is an earlier cell. */
  ghost predicate ValidJournal(cells: seq<CellEntry>) {
    && (forall i :: 0 <= i < |cells| ==> cells[i].id == i + 1)
    && (forall i :: 0 <= i < |cells| && cells[i].parentId.Some? ==> 1 <= cells[i].parentId.value <= i)
  }

  predicate LeafOf(cells: seq<CellEntry>, leaf: Option<nat>) {
    leaf.Some? ==> 1 <= leaf.value <= |cells|
  }

  function AppendCell(cells: seq<CellEntry>, leaf: Option<nat>, input: AppendInput): seq<CellEntry> {
    cells + [CellEntry(|cells| + 1, leaf, input)]
  }

  lemma AppendKeepsJournal(cells: seq<CellEntry>, leaf: Option<nat>, input: AppendInput)
    requires ValidJournal(cells) && LeafOf(cells, leaf)
    ensures ValidJournal(AppendCell(cells, leaf, input))
    ensures LeafOf(AppendCell(cells, leaf, input), Some(|cells| + 1))
  {}

  // ---- What the calls do ----

  datatype JournalEvent = Append(input: AppendInput) | SetLeaf(id: Option<nat>) | Reset | Reopen

  datatype Journal = Journal(cells: seq<CellEntry>, leaf: Option<nat>)

  function JournalStep(j: Journal, e: JournalEvent): Journal {
    match e
    case Append(input) => Journal(AppendCell(j.cells, j.leaf, input), Some(|j.cells| + 1))
    case SetLeaf(id) => if LeafOf(j.cells, id) then j.(leaf := id) else j
    case Reset => Journal([], None)
    case Reopen => j.(leaf := LastIdOf(j.cells))
  }

  class CellArchive {
    var file: Option<seq<Line>>          // cells.jsonl
    var nextId: nat
    var lastId: Option<nat>
    var leafId: Option<nat>

    function Cells(): seq<CellEntry>
      reads this
    {
      if file.None? then [] else CellsOf(file.value)
    }

    function View(): Journal
      reads this
    {
      Journal(Cells(), leafId)
    }

    /** The counters describe the journal and the leaf is one of its cells. */
    ghost predicate Valid()
      reads this
    {
      && ValidJournal(Cells())
      && nextId == |Cells()| + 1
      && lastId == LastIdOf(Cells())
      && LeafOf(Cells(), leafId)
    }

    static method Scan(file: Option<seq<Line>>) returns (nextId: nat, lastId: Option<nat>)
      ensures lastId == LastIdOf(if file.None? then [] else CellsOf(file.value))
      ensures nextId == lastId.GetOr(0) + 1
    {
      lastId := None;
      if file.None? { return 1, None; }
      var lines := file.value;
      for i := 0 to |lines|
        invariant lastId == ScanLastId(lines[..i])
      {
        if lines[i].Cell? { lastId := Some(lines[i].entry.id); }
        assert lines[..i + 1][..i] == lines[..i];
      }
      assert lines[..|lines|] == lines;
      ScanIsLastCell(lines);
      return lastId.GetOr(0) + 1, lastId;
    }

    /** Opening a journal puts the leaf on its last cell. */
    constructor (file: Option<seq<Line>>)
      requires ValidJournal(if file.None? then [] else CellsOf(file.value))
      ensures Valid() && this.file == file && leafId == lastId
      ensures View() == JournalStep(Journal(if file.None? then [] else CellsOf(file.value), None), Reopen)
    {
      this.file := file;
      var nextId, lastId := Scan(file);
      this.nextId := nextId;
      this.lastId := lastId;
      this.leafId := lastId;
    }

    method EnsureHeader()
      modifies this`file
      ensures file.Some? && Cells() == old(Cells())
    {
      if file.Some? { return; }
      file := Some([Header]);
      assert [Header][..0] == [];
    }

    method Append(input: AppendInput) returns (entry: CellEntry)
      requires Valid()
      modifies this
      ensures Valid()
      ensures entry == CellEntry(old(nextId), old(leafId), input)
      ensures View() == JournalStep(old(View()), JournalEvent.Append(input))
      ensures leafId == lastId == Some(entry.id)
    {
      EnsureHeader();
      var id := nextId;
      nextId := nextId + 1;
      entry := CellEntry(id, leafId, input);
      AppendKeepsJournal(Cells(), leafId, input);
      assert (file.value + [Cell(entry)])[..|file.value|] == file.value;
      file := Some(file.value + [Cell(entry)]);
      lastId := Some(id);
      leafId := Some(id);
    }

    method SetLeaf(id: Option<nat>)
      requires Valid() && LeafOf(Cells(), id)
      modifies this`leafId
      ensures Valid() && View() == JournalStep(old(View()), JournalEvent.SetLeaf(id))
    {
      leafId := id;
    }

    method Reset()
      modifies this
      ensures Valid() && View() == JournalStep(old(View()), JournalEvent.Reset) && lastId == None && nextId == 1
    {
      file := Some([Header]);
      assert [Header][..0] == [];
      nextId := 1;
      lastId := None;
      leafId := None;
    }
  }

  // ---- Runs ----

  function JournalRun(j: Journal, es: seq<JournalEvent>): Journal
    decreases |es|
  {
    if es == [] then j else JournalRun(JournalStep(j, es[0]), es[1..])
  }

  /** Whatever is appended, moved, reset or reopened, the journal stays well-formed. */
  lemma {:induction false} RunKeepsJournal(j: Journal, es: seq<JournalEvent>)
    requires ValidJournal(j.cells) && LeafOf(j.cells, j.leaf)
    ensures var r := JournalRun(j, es); ValidJournal(r.cells) && LeafOf(r.cells, r.leaf)
    decreases |es|
  {
    if es != [] {
      if es[0].Append? { AppendKeepsJournal(j.cells, j.leaf, es[0].input); }
      RunKeepsJournal(JournalStep(j, es[0]), es[1..]);
    }
  }

  // ---- What a journal holds ----

  function InputsOf(cells: seq<CellEntry>): seq<AppendInput> {
    seq(|cells|, i requires 0 <= i < |cells| => cells[i].input)
  }

  /** What was appended since the last reset. */
  function Appended(es: seq<JournalEvent>): seq<AppendInput> {
    if es == [] then []
    else
      var n := |es| - 1;
      match es[n]
      case Append(input) => Appended(es[..n]) + [input]
      case Reset => []
      case _ => Appended(es[..n])
  }

  /** Where the next cell goes: below the last one appended, or where the leaf was put since then. */
  function LeafAfter(es: seq<JournalEvent>): Option<nat> {
    if es == [] then None
    else
      var n := |es| - 1;
      match es[n]
      case Append(_) => Some(|Appended(es)|)
      case SetLeaf(None) => None
      case SetLeaf(Some(id)) => if 1 <= id <= |Appended(es)| then Some(id) else LeafAfter(es[..n])
      case Reset => None
      case Reopen => if Appended(es) == [] then None else Some(|Appended(es)|)
  }

  lemma {:induction false} RunSnoc(j: Journal, es: seq<JournalEvent>, e: JournalEvent)
    ensures JournalRun(j, es + [e]) == JournalStep(JournalRun(j, es), e)
    decreases |es|
  {
    if es == [] {
      assert es + [e] == [e];
    } else {
      assert (es + [e])[1..] == es[1..] + [e];
      RunSnoc(JournalStep(j, es[0]), es[1..], e);
    }
  }

  const EMPTY_JOURNAL := Journal([], None)

  lemma StepHolds(j: Journal, es: seq<JournalEvent>, e: JournalEvent)
    requires InputsOf(j.cells) == Appended(es) && j.leaf == LeafAfter(es)
    requires ValidJournal(j.cells)
    ensures var r := JournalStep(j, e); InputsOf(r.cells) == Appended(es + [e]) && r.leaf == LeafAfter(es + [e])
  {
    assert (es + [e])[..|es|] == es;
    if e.Append? {
      assert InputsOf(AppendCell(j.cells, j.leaf, e.input)) == InputsOf(j.cells) + [e.input];
    }
  }

  /** Over every run: the inputs since the last reset in their order, and the leaf. */
  lemma {:induction false} RunHolds(es: seq<JournalEvent>)
    ensures var r := JournalRun(EMPTY_JOURNAL, es);
            && ValidJournal(r.cells) && InputsOf(r.cells) == Appended(es) && r.leaf == LeafAfter(es)
  {
    RunKeepsJournal(EMPTY_JOURNAL, es);
    if es != [] {
      var n := |es| - 1;
      RunHolds(es[..n]);
      assert es == es[..n] + [es[n]];
      RunSnoc(EMPTY_JOURNAL, es[..n], es[n]);
      StepHolds(JournalRun(EMPTY_JOURNAL, es[..n]), es[..n], es[n]);
      hide JournalRun, JournalStep, Appended, LeafAfter, InputsOf, ValidJournal;
    }
  }

  /** A cell appended is the last one, with its input as given, below the leaf of that moment. */
  lemma RunAppends(es: seq<JournalEvent>, input: AppendInput)
    ensures var before, after := JournalRun(EMPTY_JOURNAL, es), JournalRun(EMPTY_JOURNAL, es + [Append(input)]);
            after.cells == before.cells + [CellEntry(|Appended(es)| + 1, LeafAfter(es), input)]
  {
    RunHolds(es);
    RunSnoc(EMPTY_JOURNAL, es, Append(input));
    hide JournalRun, ValidJournal, LeafAfter, Appended;
  }
}
