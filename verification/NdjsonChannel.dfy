/**
 * packages/coworker-utils/src/ndjson-channel.ts: one JSON value a line over a stream that arrives
 * in chunks. JSON itself is a pair of functions: stringify gives a line, parse a value or nothing.
 */
module NdjsonChannel {
  import opened Wrappers

  /** What the reader yields, and the number of the line it throws at if it does. */
  datatype Received<T> = Received(messages: seq<T>, failedAt: Option<nat>)

  // ---- The whole text at once ----

  /** text.split('\n'): always at least one line, the last one without its newline. */
  function Lines(text: string): (lines: seq<string>)
    ensures |lines| > 0 && forall i :: 0 <= i < |lines| ==> '\n' !in lines[i]
  {
    if text == "" then [""]
    else
      var rest := Lines(text[1..]);
      if text[0] == '\n' then [""] + rest else [[text[0]] + rest[0]] + rest[1..]
  }

  function Join(lines: seq<string>): string
    requires |lines| > 0
  {
    if |lines| == 1 then lines[0] else lines[0] + "\n" + Join(lines[1..])
  }

  lemma {:induction false} LinesJoin(text: string)
    ensures Join(Lines(text)) == text
  {
    if text != "" {
      var rest := Lines(text[1..]);
      LinesJoin(text[1..]);
      if text[0] == '\n' {
        assert ([""] + rest)[1..] == rest;
      } else {
        assert ([[text[0]] + rest[0]] + rest[1..])[1..] == rest[1..];
      }
      assert text == [text[0]] + text[1..];
    }
  }

  predicate Bad<T>(line: string, parse: string -> Option<T>) {
    line != "" && parse(line).None?
  }

  /** The values of the lines that have one. */
  function Values<T>(lines: seq<string>, parse: string -> Option<T>): seq<T> {
    if lines == [] then []
    else (if lines[0] != "" && parse(lines[0]).Some? then [parse(lines[0]).value] else []) + Values(lines[1..], parse)
  }

  /** Blank lines count but carry nothing; the first bad line ends it. Lines are numbered from n + 1. */
  ghost predicate DecodesLines<T>(lines: seq<string>, n: nat, parse: string -> Option<T>, r: Received<T>) {
    match r.failedAt
    case None => (forall i :: 0 <= i < |lines| ==> !Bad(lines[i], parse)) && r.messages == Values(lines, parse)
    case Some(k) =>
      && n < k <= n + |lines| && Bad(lines[k - n - 1], parse)
      && (forall i :: 0 <= i < k - n - 1 ==> !Bad(lines[i], parse))
      && r.messages == Values(lines[..k - n - 1], parse)
  }

  ghost predicate Decodes<T>(text: string, parse: string -> Option<T>, r: Received<T>) {
    DecodesLines(Lines(text), 0, parse, r)
  }

  // ---- As the reader takes it ----

  /** The index of the first newline, or the length. */
  function IndexOf(text: string): (i: nat)
    ensures i <= |text| && '\n' !in text[..i] && (i < |text| ==> text[i] == '\n')
  {
    if text == "" || text[0] == '\n' then 0 else IndexOf(text[1..]) + 1
  }

  function ValueOf<T>(line: string, parse: string -> Option<T>): seq<T>
    requires !Bad(line, parse)
  {
    if line == "" then [] else [parse(line).value]
  }

  function After<T>(messages: seq<T>, r: Received<T>): Received<T> {
    r.(messages := messages + r.messages)
  }

  /** The reader over the lines that are left when lineNumber are behind it. */
  function ReadLines<T>(lines: seq<string>, lineNumber: nat, parse: string -> Option<T>): Received<T> {
    if lines == [] then Received([], None)
    else if Bad(lines[0], parse) then Received([], Some(lineNumber + 1))
    else After(ValueOf(lines[0], parse), ReadLines(lines[1..], lineNumber + 1, parse))
  }

  lemma {:induction false} LinesStep(text: string)
    ensures var i := IndexOf(text);
            if i == |text| then Lines(text) == [text] else Lines(text) == [text[..i]] + Lines(text[i + 1..])
  {
    if text != "" && text[0] != '\n' {
      LinesStep(text[1..]);
      var i := IndexOf(text[1..]);
      assert text[..i + 1] == [text[0]] + text[1..][..i];
      if i < |text| - 1 { assert text[i + 2..] == text[1..][i + 1..]; }
      assert text == [text[0]] + text[1..];
    }
  }

  /** Where the reader stops and what it has by then. */
  lemma {:induction false} ReadLinesDecodes<T>(lines: seq<string>, n: nat, parse: string -> Option<T>)
    ensures DecodesLines(lines, n, parse, ReadLines(lines, n, parse))
  {
    if lines != [] && !Bad(lines[0], parse) {
      var rest := lines[1..];
      ReadLinesDecodes(rest, n + 1, parse);
      var r := ReadLines(rest, n + 1, parse);
      forall i | 0 < i < |lines| ensures lines[i] == rest[i - 1] {}
      if r.failedAt.Some? {
        var k := r.failedAt.value;
        assert lines[..k - n - 1][1..] == rest[..k - n - 2];
      }
    }
  }

  lemma ReadDecodes<T>(text: string, parse: string -> Option<T>)
    ensures Decodes(text, parse, ReadLines(Lines(text), 0, parse))
  {
    hide ReadLines, DecodesLines, Lines;
    ReadLinesDecodes(Lines(text), 0, parse);
  }

  /** There is one way to decode a text. */
  lemma DecodesUnique<T>(text: string, parse: string -> Option<T>, r: Received<T>, s: Received<T>)
    requires Decodes(text, parse, r) && Decodes(text, parse, s)
    ensures r == s
  {}

  // ---- The methods ----

  function Flat(chunks: seq<string>): string {
    if chunks == [] then "" else chunks[0] + Flat(chunks[1..])
  }

  lemma {:induction false} IndexInFront(buffer: string, rest: string)
    requires IndexOf(buffer) < |buffer|
    ensures IndexOf(buffer + rest) == IndexOf(buffer)
  {
    if buffer[0] != '\n' {
      IndexInFront(buffer[1..], rest);
      assert (buffer + rest)[1..] == buffer[1..] + rest;
    }
  }

  /** A complete line at the front of the buffer is the same line whatever is still to come. */
  lemma LineInFront(buffer: string, rest: string)
    requires IndexOf(buffer) < |buffer|
    ensures var i := IndexOf(buffer); Lines(buffer + rest) == [buffer[..i]] + Lines(buffer[i + 1..] + rest)
  {
    IndexInFront(buffer, rest);
    LinesStep(buffer + rest);
    var i := IndexOf(buffer);
    assert (buffer + rest)[..i] == buffer[..i];
    assert (buffer + rest)[i + 1..] == buffer[i + 1..] + rest;
  }

  /** What is yielded already, then what the rest of the stream will give. */
  ghost function Outlook<T>(messages: seq<T>, text: string, lineNumber: nat, parse: string -> Option<T>): Received<T> {
    After(messages, ReadLines(Lines(text), lineNumber, parse))
  }

  lemma ReadOne<T>(line: string, lines: seq<string>, n: nat, parse: string -> Option<T>)
    ensures ReadLines([line] + lines, n, parse)
         == if Bad(line, parse) then Received([], Some(n + 1))
            else After(ValueOf(line, parse), ReadLines(lines, n + 1, parse))
  {
    assert ([line] + lines)[1..] == lines;
  }

  lemma AfterAfter<T>(a: seq<T>, b: seq<T>, r: Received<T>)
    ensures After(a, After(b, r)) == After(a + b, r) && After(a, Received([], r.failedAt)) == Received(a, r.failedAt)
  {
    assert a + (b + r.messages) == a + b + r.messages && a + [] == a;
  }

  /** One line on: it fails here, or its value is yielded. */
  lemma OutlookStep<T>(messages: seq<T>, buffer: string, rest: string, lineNumber: nat, parse: string -> Option<T>)
    requires IndexOf(buffer) < |buffer|
    ensures Outlook(messages, buffer + rest, lineNumber, parse) == (
      var i := IndexOf(buffer);
      if Bad(buffer[..i], parse) then Received(messages, Some(lineNumber + 1))
      else Outlook(messages + ValueOf(buffer[..i], parse), buffer[i + 1..] + rest, lineNumber + 1, parse))
  {
    hide *;
    LineInFront(buffer, rest);
    var i := IndexOf(buffer);
    var lines := Lines(buffer[i + 1..] + rest);
    OutlookLine(messages, buffer + rest, buffer[..i], lines, lineNumber, parse);
    var more := if Bad(buffer[..i], parse) then [] else ValueOf(buffer[..i], parse);
    OutlookIs(messages + more, buffer[i + 1..] + rest, lineNumber + 1, parse);
  }

  lemma OutlookIs<T>(messages: seq<T>, text: string, n: nat, parse: string -> Option<T>)
    ensures Outlook(messages, text, n, parse) == After(messages, ReadLines(Lines(text), n, parse))
  {}

  lemma OutlookLine<T>(
    messages: seq<T>, text: string, line: string, lines: seq<string>, n: nat, parse: string -> Option<T>)
    requires Lines(text) == [line] + lines
    ensures Outlook(messages, text, n, parse)
         == if Bad(line, parse) then Received(messages, Some(n + 1))
            else After(messages + ValueOf(line, parse), ReadLines(lines, n + 1, parse))
  {
    hide ReadLines, Lines, Bad, ValueOf, After;
    ReadOne(line, lines, n, parse);
    AfterAfter(messages, [], Received([], Some(n + 1)));
    if !Bad(line, parse) { AfterAfter(messages, ValueOf(line, parse), ReadLines(lines, n + 1, parse)); }
  }

  /** What is left after the last newline is one more line. */
  lemma OutlookTail<T>(messages: seq<T>, buffer: string, lineNumber: nat, parse: string -> Option<T>)
    requires IndexOf(buffer) == |buffer|
    ensures Outlook(messages, buffer, lineNumber, parse)
         == if Bad(buffer, parse) then Received(messages, Some(lineNumber + 1))
            else Received(messages + ValueOf(buffer, parse), None)
  {
    LinesStep(buffer);
    assert [buffer] == [buffer] + [];
    OutlookLine(messages, buffer, buffer, [], lineNumber, parse);
    if !Bad(buffer, parse) { AfterAfter(messages + ValueOf(buffer, parse), [], Received([], None)); }
    hide Lines, Bad, ValueOf, Outlook;
  }

  lemma NextChunk(buffer: string, chunks: seq<string>, c: nat)
    requires c < |chunks|
    ensures buffer + Flat(chunks[c..]) == buffer + chunks[c] + Flat(chunks[c + 1..])
  {}

  lemma NoMoreChunks(buffer: string, chunks: seq<string>)
    ensures buffer + Flat(chunks[|chunks|..]) == buffer
  {}

  method ReadNdjson<T>(chunks: seq<string>, parse: string -> Option<T>) returns (r: Received<T>)
    ensures Decodes(Flat(chunks), parse, r)
  {
    ReadDecodes(Flat(chunks), parse);
    assert Outlook([], Flat(chunks), 0, parse) == ReadLines(Lines(Flat(chunks)), 0, parse);
    hide Decodes, ReadLines, Lines, Outlook, Flat;
    var messages: seq<T> := [];
    var buffer, lineNumber := "", 0;
    assert "" + Flat(chunks[0..]) == Flat(chunks) by { assert chunks[0..] == chunks; }
    for c := 0 to |chunks|
      invariant IndexOf(buffer) == |buffer|
      invariant Outlook(messages, buffer + Flat(chunks[c..]), lineNumber, parse) == Outlook([], Flat(chunks), 0, parse)
    {
      ghost var rest := Flat(chunks[c + 1..]);
      NextChunk(buffer, chunks, c);
      buffer := buffer + chunks[c];
      var failed: bool;
      messages, buffer, lineNumber, failed := ReadBuffer(messages, buffer, lineNumber, parse, rest);
      if failed { return Received(messages, Some(lineNumber)); }
    }
    NoMoreChunks(buffer, chunks);
    OutlookTail(messages, buffer, lineNumber, parse);
    if |buffer| > 0 {
      lineNumber := lineNumber + 1;
      var value := parse(buffer);
      if value.None? { return Received(messages, Some(lineNumber)); }
      messages := messages + [value.value];
    }
    r := Received(messages, None);
  }

  /** The inner loop: every complete line in the buffer. */
  method ReadBuffer<T>(yielded: seq<T>, filled: string, number: nat, parse: string -> Option<T>, ghost rest: string)
    returns (messages: seq<T>, buffer: string, lineNumber: nat, failed: bool)
    ensures !failed ==> IndexOf(buffer) == |buffer|
    ensures Outlook(yielded, filled + rest, number, parse)
         == if failed then Received(messages, Some(lineNumber)) else Outlook(messages, buffer + rest, lineNumber, parse)
  {
    hide Outlook;
    messages, buffer, lineNumber := yielded, filled, number;
    var idx := IndexOf(buffer);
    while idx < |buffer|
      invariant idx == IndexOf(buffer)
      invariant Outlook(messages, buffer + rest, lineNumber, parse) == Outlook(yielded, filled + rest, number, parse)
      decreases |buffer|
    {
      OutlookStep(messages, buffer, rest, lineNumber, parse);
      var line := buffer[..idx];
      buffer := buffer[idx + 1..];
      lineNumber := lineNumber + 1;
      idx := IndexOf(buffer);
      if |line| == 0 {
        assert messages + [] == messages;
        continue;
      }
      var value := parse(line);
      if value.None? { return messages, buffer, lineNumber, true; }
      messages := messages + [value.value];
    }
    failed := false;
  }

  /** Two ways to cut the same text into chunks are read alike. */
  lemma ChunkingIrrelevant<T>(
    a: seq<string>, b: seq<string>, parse: string -> Option<T>, r: Received<T>, s: Received<T>)
    requires Flat(a) == Flat(b) && Decodes(Flat(a), parse, r) && Decodes(Flat(b), parse, s)
    ensures r == s
  {
    DecodesUnique(Flat(a), parse, r, s);
  }

  class Writable {
    var written: string

    constructor ()
      ensures written == ""
    {
      written := "";
    }
  }

  method WriteNdjson<T>(stream: Writable, message: T, stringify: T -> string)
    modifies stream
    ensures stream.written == old(stream.written) + stringify(message) + "\n"
  {
    var line := stringify(message) + "\n";
    stream.written := stream.written + line;
  }

  // ---- Round trip ----

  function Written<T>(messages: seq<T>, stringify: T -> string): string {
    if messages == [] then "" else stringify(messages[0]) + "\n" + Written(messages[1..], stringify)
  }

  /** JSON.stringify puts no newline into a line, leaves none empty, and parses back. */
  ghost predicate Faithful<T(!new)>(stringify: T -> string, parse: string -> Option<T>) {
    forall m :: stringify(m) != "" && '\n' !in stringify(m) && parse(stringify(m)) == Some(m)
  }

  lemma {:induction false} NewlineAt(line: string)
    requires '\n' !in line
    ensures IndexOf(line + "\n") == |line|
  {
    if line != "" {
      assert (line + "\n")[1..] == line[1..] + "\n";
      assert line[0] in line && forall c :: c in line[1..] ==> c in line;
      NewlineAt(line[1..]);
    }
  }

  lemma {:induction false} ReadWritten<T(!new)>(
    messages: seq<T>, lineNumber: nat, stringify: T -> string, parse: string -> Option<T>)
    requires Faithful(stringify, parse)
    ensures ReadLines(Lines(Written(messages, stringify)), lineNumber, parse) == Received(messages, None)
    decreases |messages|
  {
    if messages == [] {
      assert Lines("") == [""] && [""][1..] == [];
    } else {
      var line := stringify(messages[0]);
      var rest := Written(messages[1..], stringify);
      ReadWritten(messages[1..], lineNumber + 1, stringify, parse);
      NewlineAt(line);
      LineInFront(line + "\n", rest);
      assert (line + "\n")[..|line|] == line && (line + "\n")[|line| + 1..] + rest == rest;
      assert ([line] + Lines(rest))[1..] == Lines(rest);
    }
  }

  /** Whatever was written is read back from any chunking of it. */
  lemma WrittenReadsBack<T(!new)>(
    messages: seq<T>, chunks: seq<string>, stringify: T -> string, parse: string -> Option<T>, r: Received<T>)
    requires Faithful(stringify, parse) && Flat(chunks) == Written(messages, stringify)
    requires Decodes(Flat(chunks), parse, r)
    ensures r == Received(messages, None)
  {
    ReadWritten(messages, 0, stringify, parse);
    ReadDecodes(Flat(chunks), parse);
    DecodesUnique(Flat(chunks), parse, r, Received(messages, None));
  }
}
