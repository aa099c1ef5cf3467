/**
 * packages/coworker-scratchpad/src/cell-tree.ts, lines 52-90: the printed tree as one string, and
 * how far its lines, and through them the parents, can be read out of it again.
 */
module CellTreeText {
  import opened CellArchive
  import opened CellTree
  import opened Numerals
  import opened Wrappers

  // ---- One line ----

  function Spaces(n: nat): string {
    if n == 0 then "" else " " + Spaces(n - 1)
  }

  function Truncate(s: string, max: nat): string
    requires max > 0
  {
    if |s| <= max then s else s[..max - 1] + "…"
  }

  function PadEnd(s: string, n: nat): string {
    if |s| >= n then s else s + Spaces(n - |s|)
  }

  /** The position of the first line break, or the length. */
  function LineEnd(s: string): (i: nat)
    ensures i <= |s| && '\n' !in s[..i] && (i < |s| ==> s[i] == '\n')
  {
    if s == "" || s[0] == '\n' then 0 else LineEnd(s[1..]) + 1
  }

  /** The outcome of a cell is its value as JSON text, or the message of its error. */
  function Shown(cell: CellEntry): string {
    Truncate(cell.input.outcome, 40)
  }

  /** What stands behind the number. */
  function Details(cell: CellEntry): string {
    var okFlag := if cell.input.ok then "ok " else "err";
    var detail := (if cell.input.ok then "value=" else "error=") + Shown(cell);
    var codePreview := Truncate(cell.input.code[..LineEnd(cell.input.code)], 60);
    " " + okFlag + " " + PadEnd(detail, 45) + " " + codePreview
  }

  function SummarizeCell(cell: CellEntry): string {
    "#" + (Decimal(cell.id) + Details(cell))
  }

  function Connector(last: bool): string {
    if last then "└─" else "├─"
  }

  function Marker(marked: bool): string {
    if marked then " *" else ""
  }

  function LineText(line: TextLine): string {
    match line
    case OrphansHeader => "# orphans:"
    case CellLine(depth, last, cell, marked) =>
      Spaces(2 * depth) + (Connector(last) + " " + SummarizeCell(cell) + Marker(marked))
  }

  function Texts(lines: seq<TextLine>): seq<string> {
    if lines == [] then [] else [LineText(lines[0])] + Texts(lines[1..])
  }

  lemma {:induction false} TextsConcat(a: seq<TextLine>, b: seq<TextLine>)
    ensures Texts(a + b) == Texts(a) + Texts(b)
  {
    hide LineText;
    if a == [] {
      assert a + b == b;
    } else {
      assert (a + b)[1..] == a[1..] + b;
      TextsConcat(a[1..], b);
    }
  }

  // ---- All lines ----

  function Join(lines: seq<string>): string {
    if lines == [] then ""
    else if |lines| == 1 then lines[0]
    else lines[0] + "\n" + Join(lines[1..])
  }

  /** text.split('\n') */
  function Split(text: string): seq<string>
    decreases |text|
  {
    var i := LineEnd(text);
    if i == |text| then [text] else [text[..i]] + Split(text[i + 1..])
  }

  lemma TextsOfNode(tree: CellTree, n: nat, id: nat, depth: nat, last: bool, leaf: Option<nat>)
    requires Forest(tree, n) && id in tree.children
    ensures Later(tree, id, tree.children[id]) && id <= n
    ensures Texts(Render(tree, n, id, depth, last, leaf))
         == [LineText(NodeLine(tree, id, depth, last, leaf))]
            + Texts(RenderList(tree, n, id, tree.children[id], depth + 1, leaf))
  {
    TextsConcat([NodeLine(tree, id, depth, last, leaf)], RenderList(tree, n, id, tree.children[id], depth + 1, leaf));
    assert Texts([NodeLine(tree, id, depth, last, leaf)]) == [LineText(NodeLine(tree, id, depth, last, leaf))];
    hide LineText, Texts, RenderList;
  }

  lemma TextsOfList(tree: CellTree, n: nat, above: nat, ids: seq<nat>, i: nat, depth: nat, leaf: Option<nat>)
    requires Forest(tree, n) && above <= n && Later(tree, above, ids) && i < |ids|
    ensures Texts(RenderList(tree, n, above, ids[i..], depth, leaf))
         == Texts(Render(tree, n, ids[i], depth, i == |ids| - 1, leaf))
            + Texts(RenderList(tree, n, above, ids[i + 1..], depth, leaf))
  {
    assert ids[i..][1..] == ids[i + 1..];
    var rest := RenderList(tree, n, above, ids[i + 1..], depth, leaf);
    TextsConcat(Render(tree, n, ids[i], depth, i == |ids| - 1, leaf), rest);
    hide Texts, Render;
  }

  method RenderNode(tree: CellTree, ghost n: nat, id: nat, depth: nat, last: bool, leaf: Option<nat>, out: seq<string>)
    returns (lines: seq<string>)
    requires Forest(tree, n) && id in tree.children
    ensures lines == out + Texts(Render(tree, n, id, depth, last, leaf))
    decreases n - id, 1
  {
    hide Texts, Render, Spaces, SummarizeCell, Connector, Marker;
    TextsOfNode(tree, n, id, depth, last, leaf);
    var indent, connector := Spaces(2 * depth), Connector(last);
    var marker := Marker(leaf == Some(tree.byId[id].id));
    lines := out + [indent + (connector + " " + SummarizeCell(tree.byId[id]) + marker)];
    lines := RenderChildren(tree, n, id, tree.children[id], depth + 1, leaf, lines);
  }

  /** The loop over the children of a node, or over the orphans. */
  method RenderChildren(
    tree: CellTree, ghost n: nat, ghost above: nat, ids: seq<nat>, depth: nat, leaf: Option<nat>, out: seq<string>)
    returns (lines: seq<string>)
    requires Forest(tree, n) && above <= n && Later(tree, above, ids)
    ensures lines == out + Texts(RenderList(tree, n, above, ids, depth, leaf))
    decreases n - above, 0
  {
    hide Texts, Render, RenderList;
    lines := out;
    for i := 0 to |ids|
      invariant out + Texts(RenderList(tree, n, above, ids, depth, leaf))
             == lines + Texts(RenderList(tree, n, above, ids[i..], depth, leaf))
    {
      TextsOfList(tree, n, above, ids, i, depth, leaf);
      lines := RenderNode(tree, n, ids[i], depth, i == |ids| - 1, leaf, lines);
    }
    NoMoreLines(tree, n, above, ids, depth, leaf);
  }

  lemma NoMoreLines(tree: CellTree, n: nat, above: nat, ids: seq<nat>, depth: nat, leaf: Option<nat>)
    requires Forest(tree, n) && above <= n && Later(tree, above, ids)
    ensures Texts(RenderList(tree, n, above, ids[|ids|..], depth, leaf)) == []
  {
    assert ids[|ids|..] == [];
  }

  lemma TextsOfFormat(tree: CellTree, n: nat, leaf: Option<nat>)
    requires TopLevel(tree, n)
    ensures Texts(Format(tree, n, leaf))
         == (if tree.root.None? then [] else Texts(Render(tree, n, tree.root.value, 0, true, leaf)))
            + if tree.orphans == [] then []
              else ["# orphans:"] + Texts(RenderList(tree, n, 0, tree.orphans, 0, leaf))
  {
    var top := if tree.root.None? then [] else Render(tree, n, tree.root.value, 0, true, leaf);
    var rest := RenderList(tree, n, 0, tree.orphans, 0, leaf);
    assert Texts([OrphansHeader]) == ["# orphans:"] && Texts([]) == [];
    TextsConcat([OrphansHeader], rest);
    TextsConcat(top, if tree.orphans == [] then [] else [OrphansHeader] + rest);
    hide Texts, Render, RenderList, LineText;
  }

  method FormatTreeText(tree: CellTree, ghost n: nat, leaf: Option<nat>) returns (text: string)
    requires TopLevel(tree, n)
    ensures text == Join(Texts(Format(tree, n, leaf)))
  {
    TextsOfFormat(tree, n, leaf);
    hide Texts, Render, RenderList, Format, Join, Forest, Later;
    var lines := [];
    if tree.root.Some? {
      lines := RenderNode(tree, n, tree.root.value, 0, true, leaf, lines);
      assert lines == Texts(Render(tree, n, tree.root.value, 0, true, leaf));
    }
    ghost var rooted := lines;
    assert rooted + [] == rooted;
    if |tree.orphans| > 0 {
      lines := RenderChildren(tree, n, 0, tree.orphans, 0, leaf, lines + ["# orphans:"]);
      Regroup(rooted, ["# orphans:"], Texts(RenderList(tree, n, 0, tree.orphans, 0, leaf)));
    }
    text := Join(lines);
  }

  lemma Regroup<T>(a: seq<T>, b: seq<T>, c: seq<T>)
    ensures a + b + c == a + (b + c)
  {}

  // ---- Reading a line ----

  datatype Read = Read(depth: nat, lastSibling: bool, id: nat)

  function LeadingSpaces(s: string): (n: nat)
    ensures n <= |s|
  {
    if s != "" && s[0] == ' ' then LeadingSpaces(s[1..]) + 1 else 0
  }

  function LeadingDigits(s: string): (n: nat)
    ensures n <= |s| && AllDigits(s[..n])
  {
    if s != "" && IsDigit(s[0]) then LeadingDigits(s[1..]) + 1 else 0
  }

  /** The indentation, the connector and the number of a printed cell; None for the header. */
  function ReadLine(s: string): Option<Read> {
    var n := LeadingSpaces(s);
    if n + 4 <= |s| && (s[n] == '└' || s[n] == '├') then
      var number := s[n + 4..];
      Some(Read(n / 2, s[n] == '└', Value(number[..LeadingDigits(number)])))
    else None
  }

  lemma {:induction false} SpacesLead(n: nat, rest: string)
    requires rest != "" && rest[0] != ' '
    ensures LeadingSpaces(Spaces(n) + rest) == n && |Spaces(n)| == n
  {
    if n == 0 {
      assert Spaces(0) + rest == rest;
    } else {
      SpacesLead(n - 1, rest);
      assert (Spaces(n) + rest)[1..] == Spaces(n - 1) + rest;
    }
  }

  lemma {:induction false} DigitsLead(digits: string, rest: string)
    requires AllDigits(digits) && rest != "" && !IsDigit(rest[0])
    ensures LeadingDigits(digits + rest) == |digits|
  {
    if digits == "" {
      assert digits + rest == rest;
    } else {
      DigitsLead(digits[1..], rest);
      assert (digits + rest)[1..] == digits[1..] + rest;
    }
  }

  lemma MoveHash(connector: string, number: string, details: string, marker: string)
    ensures connector + " " + ("#" + (number + details)) + marker == (connector + " #") + (number + (details + marker))
  {}

  lemma DetailsBegin(cell: CellEntry)
    ensures Details(cell) != "" && Details(cell)[0] == ' '
  {
    hide Truncate, PadEnd, LineEnd;
  }

  /** A printed cell begins with its indentation, its connector and its number. */
  lemma LineShape(line: TextLine) returns (tail: string)
    requires line.CellLine?
    ensures tail != "" && tail[0] == ' '
    ensures LineText(line)
         == Spaces(2 * line.depth) + ((Connector(line.lastSibling) + " #") + (Decimal(line.cell.id) + tail))
  {
    hide Spaces, Decimal, Details, Connector, Marker;
    DetailsBegin(line.cell);
    tail := Details(line.cell) + Marker(line.marked);
    MoveHash(Connector(line.lastSibling), Decimal(line.cell.id), Details(line.cell), Marker(line.marked));
  }

  lemma NumberReads(id: nat, tail: string)
    requires tail != "" && tail[0] == ' '
    ensures var number := Decimal(id) + tail; Value(number[..LeadingDigits(number)]) == id
  {
    ValueOfDecimal(id);
    DigitsLead(Decimal(id), tail);
    assert (Decimal(id) + tail)[..|Decimal(id)|] == Decimal(id);
  }

  lemma ReadsAt(s: string, n: nat, last: bool, number: string)
    requires LeadingSpaces(s) == n && n + 4 <= |s| && s[n..n + 2] == Connector(last) && s[n + 4..] == number
    ensures ReadLine(s) == Some(Read(n / 2, last, Value(number[..LeadingDigits(number)])))
  {
    assert s[n] == s[n..n + 2][0];
    hide LeadingSpaces, LeadingDigits, Value;
  }

  lemma ConnectorReads(n: nat, last: bool, number: string)
    ensures var s := Spaces(n) + ((Connector(last) + " #") + number);
            ReadLine(s) == Some(Read(n / 2, last, Value(number[..LeadingDigits(number)])))
  {
    var rest := (Connector(last) + " #") + number;
    SpacesLead(n, rest);
    assert rest[..2] == Connector(last) && rest[4..] == number;
    hide *;
    Within(Spaces(n), rest);
    ReadsAt(Spaces(n) + rest, n, last, number);
  }

  lemma Within(a: string, b: string)
    requires |b| >= 4
    ensures (a + b)[|a|..|a| + 2] == b[..2] && (a + b)[|a| + 4..] == b[4..]
  {}

  lemma CellLineReads(line: TextLine)
    requires line.CellLine?
    ensures ReadLine(LineText(line)) == Some(Read(line.depth, line.lastSibling, line.cell.id))
  {
    hide *;
    var tail := LineShape(line);
    var n := 2 * line.depth;
    NumberReads(line.cell.id, tail);
    ConnectorReads(n, line.lastSibling, Decimal(line.cell.id) + tail);
    assert n / 2 == line.depth;
  }

  lemma LineReads(line: TextLine)
    ensures ReadLine(LineText(line))
         == if line.CellLine? then Some(Read(line.depth, line.lastSibling, line.cell.id)) else None
  {
    if line.CellLine? { CellLineReads(line); }
  }

  // ---- Reading the text ----

  /** The parent of every cell, from the lines alone: path leads to the line above. */
  function ParentsIn(lines: seq<string>, path: seq<nat>): map<nat, Option<nat>> {
    if lines == [] then map[]
    else
      match ReadLine(lines[0])
      case None => ParentsIn(lines[1..], [])
      case Some(r) =>
        var up := if r.depth <= |path| then path[..r.depth] else path;
        ParentsIn(lines[1..], up + [r.id])[r.id := if up == [] then None else Some(up[|up| - 1])]
  }

  lemma ParentsUnfold(line: TextLine, rest: seq<TextLine>, path: seq<nat>)
    requires line.CellLine? ==> line.depth <= |path|
    ensures ParentsIn(Texts([line] + rest), path)
         == if line.CellLine? then
              ParentsIn(Texts(rest), path[..line.depth] + [line.cell.id])
              [line.cell.id := if line.depth == 0 then None else Some(path[line.depth - 1])]
            else ParentsIn(Texts(rest), [])
  {
    LineReads(line);
    hide LineText, ReadLine;
    assert ([line] + rest)[1..] == rest;
    assert Texts([line] + rest) == [LineText(line)] + Texts(rest);
    assert ([LineText(line)] + Texts(rest))[1..] == Texts(rest);
  }

  lemma ReadsBackUnfold(cells: seq<CellEntry>, line: TextLine, rest: seq<TextLine>, path: seq<nat>)
    requires ReadsBack(cells, [line] + rest, path)
    ensures line.CellLine? ==>
              && line.depth <= |path|
              && Parent(cells, line.cell.id) == if line.depth == 0 then None else Some(path[line.depth - 1])
    ensures ReadsBack(cells, rest, if line.CellLine? then path[..line.depth] + [line.cell.id] else [])
    ensures forall id :: Count([line] + rest, id)
                      == (if line.CellLine? && line.cell.id == id then 1 else 0) + Count(rest, id)
  {
    hide Parent, InJournal;
    assert ([line] + rest)[1..] == rest;
  }

  /** Lines that read back to the journal give its parents. */
  lemma {:induction false} ParentsOfLines(cells: seq<CellEntry>, lines: seq<TextLine>, path: seq<nat>)
    requires ReadsBack(cells, lines, path)
    ensures forall id :: id in ParentsIn(Texts(lines), path) <==> Count(lines, id) > 0
    ensures forall id :: id in ParentsIn(Texts(lines), path) ==> ParentsIn(Texts(lines), path)[id] == Parent(cells, id)
    decreases |lines|
  {
    if lines != [] {
      hide *;
      var line, rest := lines[0], lines[1..];
      assert lines == [line] + rest;
      ReadsBackUnfold(cells, line, rest, path);
      ParentsUnfold(line, rest, path);
      ParentsOfLines(cells, rest, if line.CellLine? then path[..line.depth] + [line.cell.id] else []);
    }
  }

  // ---- Where a line breaks ----

  ghost predicate Breaks(s: string) {
    '\n' in s
  }

  lemma BreaksConcat(a: string, b: string)
    ensures Breaks(a + b) <==> Breaks(a) || Breaks(b)
  {}

  lemma {:induction false} SpacesHold(n: nat)
    ensures !Breaks(Spaces(n))
  {
    if n > 0 { SpacesHold(n - 1); }
  }

  lemma DecimalHolds(n: nat)
    ensures !Breaks(Decimal(n))
  {
    DecimalShape(n);
  }

  lemma PreviewHolds(code: string)
    ensures !Breaks(Truncate(code[..LineEnd(code)], 60))
  {}

  lemma PadBreaksIff(s: string, n: nat)
    ensures Breaks(PadEnd(s, n)) <==> Breaks(s)
  {
    if |s| < n {
      SpacesHold(n - |s|);
      BreaksConcat(s, Spaces(n - |s|));
    }
  }

  lemma DetailsBreakIff(cell: CellEntry)
    ensures Breaks(Details(cell)) <==> Breaks(Shown(cell))
  {
    var okFlag := if cell.input.ok then "ok " else "err";
    var prefix := if cell.input.ok then "value=" else "error=";
    var codePreview := Truncate(cell.input.code[..LineEnd(cell.input.code)], 60);
    PreviewHolds(cell.input.code);
    PadBreaksIff(prefix + Shown(cell), 45);
    hide Truncate, PadEnd, LineEnd, Shown;
    var head := " " + okFlag + " ";
    BreaksConcat(prefix, Shown(cell));
    BreaksConcat(head, PadEnd(prefix + Shown(cell), 45));
    BreaksConcat(head + PadEnd(prefix + Shown(cell), 45), " ");
    BreaksConcat(head + PadEnd(prefix + Shown(cell), 45) + " ", codePreview);
  }

  /** A cell takes one line unless what is shown of its outcome has a line break. */
  lemma SummaryBreaksIff(cell: CellEntry)
    ensures Breaks(SummarizeCell(cell)) <==> Breaks(Shown(cell))
  {
    DetailsBreakIff(cell);
    DecimalHolds(cell.id);
    hide Decimal, Details, Shown;
    BreaksConcat("#", Decimal(cell.id) + Details(cell));
    BreaksConcat(Decimal(cell.id), Details(cell));
  }

  lemma LineBreaksIff(line: TextLine)
    ensures Breaks(LineText(line)) <==> line.CellLine? && Breaks(Shown(line.cell))
  {
    if line.CellLine? {
      var connector, marker := Connector(line.lastSibling), Marker(line.marked);
      SummaryBreaksIff(line.cell);
      SpacesHold(2 * line.depth);
      hide Spaces, SummarizeCell, Shown;
      BreaksConcat(Spaces(2 * line.depth), connector + " " + SummarizeCell(line.cell) + marker);
      BreaksConcat(connector + " ", SummarizeCell(line.cell));
      BreaksConcat(connector + " " + SummarizeCell(line.cell), marker);
    }
  }

  // ---- Splitting the text ----

  lemma {:induction false} LineEndAfter(a: string, b: string)
    requires !Breaks(a)
    ensures LineEnd(a + "\n" + b) == |a| && LineEnd(a) == |a|
  {
    if a == "" {
      assert a + "\n" + b == "\n" + b;
    } else {
      assert (a + "\n" + b)[1..] == a[1..] + "\n" + b;
      LineEndAfter(a[1..], b);
    }
  }

  lemma {:induction false} SplitHasNoBreaks(text: string, i: nat)
    requires i < |Split(text)|
    ensures !Breaks(Split(text)[i])
    decreases |text|
  {
    var n := LineEnd(text);
    if n < |text| && i > 0 {
      SplitHasNoBreaks(text[n + 1..], i - 1);
    } else if n == |text| {
      assert text[..n] == text;
    }
  }

  lemma {:induction false} SplitJoin(lines: seq<string>)
    requires lines != [] && forall i :: 0 <= i < |lines| ==> !Breaks(lines[i])
    ensures Split(Join(lines)) == lines
  {
    var text := Join(lines);
    if |lines| == 1 {
      LineEndAfter(lines[0], "");
    } else {
      LineEndAfter(lines[0], Join(lines[1..]));
      assert text[..|lines[0]|] == lines[0] && text[|lines[0]| + 1..] == Join(lines[1..]);
      SplitJoin(lines[1..]);
    }
  }

  /** Splitting gives the lines back exactly when none has a break inside. */
  lemma SplitJoinIff(lines: seq<string>)
    requires lines != []
    ensures Split(Join(lines)) == lines <==> forall i :: 0 <= i < |lines| ==> !Breaks(lines[i])
  {
    if forall i :: 0 <= i < |lines| ==> !Breaks(lines[i]) {
      SplitJoin(lines);
    } else {
      var i :| 0 <= i < |lines| && Breaks(lines[i]);
      if Split(Join(lines)) == lines { SplitHasNoBreaks(Join(lines), i); }
    }
  }

  // ---- The printed journal ----

  lemma {:induction false} TextsAt(lines: seq<TextLine>, i: nat)
    requires i < |lines|
    ensures |Texts(lines)| == |lines| && Texts(lines)[i] == LineText(lines[i])
  {
    hide LineText;
    if i > 0 { TextsAt(lines[1..], i - 1); }
    TextsLength(lines);
  }

  lemma {:induction false} TextsLength(lines: seq<TextLine>)
    ensures |Texts(lines)| == |lines|
  {
    if lines != [] { TextsLength(lines[1..]); }
  }

  lemma {:induction false} CountedLine(lines: seq<TextLine>, id: nat) returns (i: nat)
    requires Count(lines, id) > 0
    ensures i < |lines| && lines[i].CellLine? && lines[i].cell.id == id
  {
    if lines[0].CellLine? && lines[0].cell.id == id {
      i := 0;
    } else {
      i := CountedLine(lines[1..], id);
      i := i + 1;
    }
  }

  lemma {:induction false} LinesInJournal(cells: seq<CellEntry>, lines: seq<TextLine>, path: seq<nat>, i: nat)
    requires ReadsBack(cells, lines, path) && i < |lines| && lines[i].CellLine?
    ensures InJournal(cells, lines[i].cell)
    decreases i
  {
    if i > 0 {
      var line := lines[0];
      LinesInJournal(cells, lines[1..], if line.CellLine? then path[..line.depth] + [line.cell.id] else [], i - 1);
    }
  }

  /** The error message is cut but not flattened. */
  ghost predicate Flat(cell: CellEntry) {
    !Breaks(Shown(cell))
  }

  /** Each cell has a line of its own in the text exactly when no outcome shows a line break. */
  lemma TextSplitsIff(cells: seq<CellEntry>, leaf: Option<nat>)
    requires ValidJournal(cells) && cells != []
    ensures TopLevel(Project(cells), |cells|)
    ensures var lines := Texts(Format(Project(cells), |cells|, leaf));
            Split(Join(lines)) == lines <==> forall i :: 0 <= i < |cells| ==> Flat(cells[i])
  {
    hide *;
    FormatReadsBack(cells, leaf);
    var lines := Format(Project(cells), |cells|, leaf);
    forall i | 0 <= i < |cells| && !Flat(cells[i])
      ensures exists k :: 0 <= k < |Texts(lines)| && Breaks(Texts(lines)[k])
    {
      var k := LineOf(cells, leaf, i);
      TextsAt(lines, k);
      OwnLine(lines[k]);
      assert Breaks(Texts(lines)[k]);
    }
    TextsLength(lines);
    forall k | 0 <= k < |lines| && Breaks(Texts(lines)[k])
      ensures exists i :: 0 <= i < |cells| && !Flat(cells[i])
    {
      TextsAt(lines, k);
      OwnLine(lines[k]);
      LinesInJournal(cells, lines, [], k);
      InJournalIs(cells, lines[k].cell);
    }
    var k := LineOf(cells, leaf, 0);
    SplitJoinIff(Texts(lines));
  }

  lemma OwnLine(line: TextLine)
    ensures Breaks(LineText(line)) <==> line.CellLine? && !Flat(line.cell)
  {
    LineBreaksIff(line);
    hide LineText, Shown, Breaks;
  }

  lemma InJournalIs(cells: seq<CellEntry>, cell: CellEntry)
    requires InJournal(cells, cell)
    ensures 0 <= cell.id - 1 < |cells| && cells[cell.id - 1] == cell
  {}

  lemma LineOf(cells: seq<CellEntry>, leaf: Option<nat>, i: nat) returns (k: nat)
    requires ValidJournal(cells) && i < |cells|
    ensures TopLevel(Project(cells), |cells|)
    ensures var lines := Format(Project(cells), |cells|, leaf);
            k < |lines| && lines[k].CellLine? && lines[k].cell == cells[i]
  {
    hide *;
    FormatShowsEachCellOnce(cells, leaf, i + 1);
    FormatReadsBack(cells, leaf);
    var lines := Format(Project(cells), |cells|, leaf);
    k := CountedLine(lines, i + 1);
    LinesInJournal(cells, lines, [], k);
    InJournalIs(cells, lines[k].cell);
  }

  /** The text alone gives back the parent of every cell. */
  lemma TextReadsBack(cells: seq<CellEntry>, leaf: Option<nat>)
    requires ValidJournal(cells) && cells != [] && forall i :: 0 <= i < |cells| ==> Flat(cells[i])
    ensures TopLevel(Project(cells), |cells|)
    ensures ParentsIn(Split(Join(Texts(Format(Project(cells), |cells|, leaf)))), [])
         == map id | 1 <= id <= |cells| :: Parent(cells, id)
  {
    hide *;
    FormatReadsBack(cells, leaf);
    var lines := Format(Project(cells), |cells|, leaf);
    TextSplitsIff(cells, leaf);
    ParentsOfLines(cells, lines, []);
    forall id: nat ensures Count(lines, id) > 0 <==> 1 <= id <= |cells| {
      if 1 <= id <= |cells| { FormatShowsEachCellOnce(cells, leaf, id); }
      if Count(lines, id) > 0 {
        var k := CountedLine(lines, id);
        LinesInJournal(cells, lines, [], k);
        InJournalIs(cells, lines[k].cell);
      }
    }
  }

  // ---- What a line shows ----

  predicate AllSpaces(s: string) {
    forall i :: 0 <= i < |s| ==> s[i] == ' '
  }

  /** kept is s, or as much of it as fits with an ellipsis in max characters. */
  predicate Keeps(s: string, max: nat, kept: string) {
    if |s| <= max then kept == s
    else |kept| == max && max > 0 && kept[..max - 1] == s[..max - 1] && kept[max - 1] == '…'
  }

  /** line is the text up to its first line break. */
  predicate FirstLine(code: string, line: string) {
    line <= code && '\n' !in line && (|line| < |code| ==> code[|line|] == '\n')
  }

  lemma {:induction false} SpacesAre(n: nat)
    ensures |Spaces(n)| == n && AllSpaces(Spaces(n))
  {
    if n > 0 { SpacesAre(n - 1); }
  }

  lemma TruncateKeeps(s: string, max: nat)
    requires max > 0
    ensures Keeps(s, max, Truncate(s, max))
  {}

  /** Number, state, what came out padded to its column, the first line of the code, and the mark of the leaf. */
  lemma LineShows(line: TextLine) returns (indent: string, kept: string, padding: string, code: string, preview: string)
    requires line.CellLine?
    ensures |indent| == 2 * line.depth && AllSpaces(indent)
    ensures Keeps(line.cell.input.outcome, 40, kept)
    ensures AllSpaces(padding) && |padding| == if |kept| >= 39 then 0 else 39 - |kept|
    ensures FirstLine(line.cell.input.code, code) && Keeps(code, 60, preview)
    ensures LineText(line)
         == indent + (if line.lastSibling then "└─ #" else "├─ #") + Decimal(line.cell.id)
            + (if line.cell.input.ok then " ok  value=" else " err error=") + kept + padding + " " + preview
            + (if line.marked then " *" else "")
  {
    var cell := line.cell;
    var flag := if cell.input.ok then " ok  value=" else " err error=";
    indent, kept, code := Spaces(2 * line.depth), Shown(cell), cell.input.code[..LineEnd(cell.input.code)];
    preview := Truncate(code, 60);
    SpacesAre(2 * line.depth);
    ShownKeeps(cell);
    TruncateKeeps(code, 60);
    FirstLineIs(cell.input.code);
    Signs(line.lastSibling, line.marked);
    hide *;
    padding := Column(if cell.input.ok then "value=" else "error=", kept);
    DetailsAre(cell, kept, padding, preview);
    LineParts(line, indent, flag + kept + padding + " " + preview);
    Joined(indent, Connector(line.lastSibling), Decimal(cell.id), flag, kept, padding, preview, Marker(line.marked));
  }

  lemma ShownKeeps(cell: CellEntry)
    ensures Keeps(cell.input.outcome, 40, Shown(cell))
  {
    TruncateKeeps(cell.input.outcome, 40);
    hide Truncate, Keeps;
  }

  lemma FirstLineIs(code: string)
    ensures FirstLine(code, code[..LineEnd(code)])
  {}

  lemma Signs(last: bool, marked: bool)
    ensures Connector(last) + " #" == if last then "└─ #" else "├─ #"
    ensures Marker(marked) == if marked then " *" else ""
  {}

  /** Padding to 45 characters behind a tag of six. */
  lemma Column(tag: string, kept: string) returns (padding: string)
    requires |tag| == 6
    ensures AllSpaces(padding) && |padding| == if |kept| >= 39 then 0 else 39 - |kept|
    ensures PadEnd(tag + kept, 45) == tag + kept + padding
  {
    var n := if |kept| >= 39 then 0 else 39 - |kept|;
    padding := Spaces(n);
    SpacesAre(n);
    hide Spaces, AllSpaces;
    if n == 0 {
      assert tag + kept + padding == tag + kept;
    } else {
      assert |tag + kept| == 45 - n;
    }
  }

  lemma DetailsAre(cell: CellEntry, kept: string, padding: string, preview: string)
    requires kept == Shown(cell) && preview == Truncate(cell.input.code[..LineEnd(cell.input.code)], 60)
    requires var tag := if cell.input.ok then "value=" else "error="; PadEnd(tag + kept, 45) == tag + kept + padding
    ensures Details(cell)
         == (if cell.input.ok then " ok  value=" else " err error=") + kept + padding + " " + preview
  {
    hide Truncate, PadEnd, LineEnd, Shown;
    var okFlag := if cell.input.ok then "ok " else "err";
    var tag := if cell.input.ok then "value=" else "error=";
    assert " " + okFlag + " " + (tag + kept + padding) == (" " + okFlag + " " + tag) + kept + padding;
    assert " " + okFlag + " " + tag == if cell.input.ok then " ok  value=" else " err error=";
  }

  lemma LineParts(line: TextLine, indent: string, details: string)
    requires line.CellLine? && indent == Spaces(2 * line.depth) && details == Details(line.cell)
    ensures LineText(line)
         == indent
            + (Connector(line.lastSibling) + " " + ("#" + (Decimal(line.cell.id) + details)) + Marker(line.marked))
  {}

  lemma Joined(
    indent: string, connector: string, number: string, flag: string, kept: string, padding: string, preview: string,
    mark: string)
    ensures indent + (connector + " " + ("#" + (number + (flag + kept + padding + " " + preview))) + mark)
         == indent + (connector + " #") + number + flag + kept + padding + " " + preview + mark
  {}

  // ---- Marks and connectors ----

  /** The youngest of the cells below its parent. */
  ghost predicate Youngest(cells: seq<CellEntry>, id: nat) {
    forall c: nat :: Parent(cells, c) == Parent(cells, id) ==> c <= id
  }

  /** The leaf alone is marked; below a parent the youngest cell closes the list. */
  ghost predicate LineFlags(cells: seq<CellEntry>, leaf: Option<nat>, line: TextLine) {
    line.CellLine? ==>
      && (line.marked <==> leaf == Some(line.cell.id))
      && (Parent(cells, line.cell.id).Some? ==> (line.lastSibling <==> Youngest(cells, line.cell.id)))
  }

  ghost predicate AllFlags(cells: seq<CellEntry>, leaf: Option<nat>, lines: seq<TextLine>) {
    forall i :: 0 <= i < |lines| ==> LineFlags(cells, leaf, lines[i])
  }

  /** Of listed cells with a parent exactly the last is the youngest. */
  ghost predicate LastIsYoungest(cells: seq<CellEntry>, ids: seq<nat>) {
    forall i :: 0 <= i < |ids| && Parent(cells, ids[i]).Some? ==> (i == |ids| - 1 <==> Youngest(cells, ids[i]))
  }

  lemma FlagsConcat(cells: seq<CellEntry>, leaf: Option<nat>, a: seq<TextLine>, b: seq<TextLine>)
    requires AllFlags(cells, leaf, a) && AllFlags(cells, leaf, b)
    ensures AllFlags(cells, leaf, a + b)
  {
    hide LineFlags;
  }

  lemma KidsLast(cells: seq<CellEntry>, id: nat)
    requires ValidJournal(cells)
    ensures LastIsYoungest(cells, ChildrenOf(cells, id))
  {
    var kids := ChildrenOf(cells, id);
    ChildrenOfJournal(cells, id);
    forall i | 0 <= i < |kids| ensures i == |kids| - 1 <==> Youngest(cells, kids[i]) {
      assert kids[i] in kids;
      if i < |kids| - 1 { assert kids[|kids| - 1] in kids && kids[i] < kids[|kids| - 1]; }
      if i == |kids| - 1 {
        forall c: nat | Parent(cells, c) == Some(id) ensures c <= kids[i] {
          assert c in kids;
        }
      }
    }
  }

  lemma {:induction false} RenderFlags(
    cells: seq<CellEntry>, tree: CellTree, id: nat, depth: nat, last: bool, leaf: Option<nat>)
    requires ValidJournal(cells) && JournalTree(cells, tree) && id in tree.children
    requires Parent(cells, id).Some? ==> (last <==> Youngest(cells, id))
    ensures AllFlags(cells, leaf, Render(tree, |cells|, id, depth, last, leaf))
    decreases |cells| - id, 1, 0
  {
    hide Youngest, LastIsYoungest, LineFlags;
    KidsLast(cells, id);
    ListFlags(cells, tree, id, tree.children[id], depth + 1, leaf);
    NodeFlags(cells, tree, id, depth, last, leaf);
    FlagsConcat(cells, leaf, [NodeLine(tree, id, depth, last, leaf)],
                RenderList(tree, |cells|, id, tree.children[id], depth + 1, leaf));
  }

  lemma NodeFlags(cells: seq<CellEntry>, tree: CellTree, id: nat, depth: nat, last: bool, leaf: Option<nat>)
    requires JournalTree(cells, tree) && id in tree.children
    requires Parent(cells, id).Some? ==> (last <==> Youngest(cells, id))
    ensures LineFlags(cells, leaf, NodeLine(tree, id, depth, last, leaf))
  {
    hide Youngest;
  }

  lemma {:induction false} ListFlags(
    cells: seq<CellEntry>, tree: CellTree, above: nat, ids: seq<nat>, depth: nat, leaf: Option<nat>)
    requires ValidJournal(cells) && JournalTree(cells, tree) && above <= |cells| && Later(tree, above, ids)
    requires LastIsYoungest(cells, ids)
    ensures AllFlags(cells, leaf, RenderList(tree, |cells|, above, ids, depth, leaf))
    decreases |cells| - above, 0, |ids|
  {
    if ids != [] {
      hide Youngest, LineFlags;
      RenderFlags(cells, tree, ids[0], depth, |ids| == 1, leaf);
      ListFlags(cells, tree, above, ids[1..], depth, leaf);
      FlagsConcat(cells, leaf, Render(tree, |cells|, ids[0], depth, |ids| == 1, leaf),
                  RenderList(tree, |cells|, above, ids[1..], depth, leaf));
    }
  }

  /** In the printed journal exactly the leaf is marked, and exactly the youngest below a parent closes its list. */
  lemma FormatFlags(cells: seq<CellEntry>, leaf: Option<nat>)
    requires ValidJournal(cells)
    ensures TopLevel(Project(cells), |cells|)
    ensures AllFlags(cells, leaf, Format(Project(cells), |cells|, leaf))
  {
    var tree, roots := Project(cells), Parentless(cells);
    FormatShape(cells, leaf);
    ParentlessOfJournal(cells);
    hide Project, Youngest, ValidJournal, JournalTree, Format;
    if roots != [] {
      assert roots[0] in roots;
      RenderFlags(cells, tree, roots[0], 0, true, leaf);
      if |roots| > 1 {
        forall i | 0 <= i < |roots[1..]| ensures Parent(cells, roots[1..][i]).None? { assert roots[i + 1] in roots; }
        ListFlags(cells, tree, 0, roots[1..], 0, leaf);
        FlagsConcat(cells, leaf, [OrphansHeader], RenderList(tree, |cells|, 0, roots[1..], 0, leaf));
      }
      FlagsConcat(cells, leaf, Render(tree, |cells|, roots[0], 0, true, leaf),
                  if |roots| == 1 then [] else [OrphansHeader] + RenderList(tree, |cells|, 0, roots[1..], 0, leaf));
    }
  }
}
