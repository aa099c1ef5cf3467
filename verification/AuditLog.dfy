/**
 * packages/coworker-utils/src/audit-log.ts: an append-only log in a live file and numbered tails,
 * tail 1 the newest. Files are the lines in them; a line that does not parse has no record.
 */
module AuditLog {
  import opened StableSort
  import opened StringOrder
  import opened Wrappers

  datatype Severity = Info | Warn

  datatype AuditRecord = AuditRecord(
    ts: Id, producer: Id, action: Id, severity: Option<Severity>, engine: Option<Id>, detail: string)

  datatype Line = Line(record: Option<AuditRecord>, bytes: nat)

  type Tails = map<nat, seq<Line>>

  datatype Dir = Dir(live: Option<seq<Line>>, tails: Tails)

  function Size(lines: seq<Line>): nat {
    if lines == [] then 0 else Size(lines[..|lines| - 1]) + lines[|lines| - 1].bytes
  }

  // ---- Rotation ----

  function MoveTail(tails: Tails, n: nat): Tails {
    if n in tails then (tails - {n})[n + 1 := tails[n]] else tails
  }

  /** Tails n down to 1 each move up by one. */
  function ShiftDown(tails: Tails, n: nat): Tails
    decreases n
  {
    if n == 0 then tails else ShiftDown(MoveTail(tails, n), n - 1)
  }

  function Rotate(d: Dir, maxTails: nat): Dir
    requires d.live.Some?
  {
    var room := d.tails - {maxTails};
    Dir(Some([]), ShiftDown(room, if maxTails == 0 then 0 else maxTails - 1)[1 := d.live.value])
  }

  predicate Full(d: Dir, maxBytes: int) {
    d.live.Some? && Size(d.live.value) >= maxBytes
  }

  function Rotated(d: Dir, maxBytes: int, maxTails: nat): Dir {
    if Full(d, maxBytes) then Rotate(d, maxTails) else d
  }

  /** written: whether the write itself went through; a failed one is reported and forgotten. */
  datatype Write = Write(line: Line, written: bool)

  function Step(d: Dir, e: Write, maxBytes: int, maxTails: nat): Dir {
    var r := Rotated(d, maxBytes, maxTails);
    if e.written then r.(live := Some(r.live.GetOr([]) + [e.line])) else r
  }

  function Logged(history: seq<Line>, e: Write): seq<Line> {
    if e.written then history + [e.line] else history
  }

  // ---- What every run keeps ----

  /** The tails present are 1 to k. */
  ghost predicate Contiguous(tails: Tails, k: nat) {
    forall n :: n in tails <==> 1 <= n <= k
  }

  ghost predicate HasTails(tails: Tails, k: nat) {
    forall n :: 1 <= n <= k ==> n in tails
  }

  /** Tail k, which is the oldest, to tail 1. */
  ghost function Kept(tails: Tails, k: nat): seq<Line>
    requires HasTails(tails, k)
  {
    if k == 0 then [] else tails[k] + Kept(tails, k - 1)
  }

  ghost function Retained(d: Dir, k: nat): seq<Line>
    requires HasTails(d.tails, k)
  {
    Kept(d.tails, k) + d.live.GetOr([])
  }

  ghost predicate IsSuffix<T>(s: seq<T>, whole: seq<T>) {
    |s| <= |whole| && whole[|whole| - |s|..] == s
  }

  /** Whatever went beyond the limit went in with its last line. */
  ghost predicate UnderPlusOneLine(live: seq<Line>, maxBytes: int) {
    |live| <= 1 || Size(live[..|live| - 1]) < maxBytes
  }

  /**
   * k tails, all of them full; they and the live file are the end of the history; a line is lost
   * only with all tails in use.
   */
  ghost predicate Inv(d: Dir, k: nat, history: seq<Line>, maxBytes: int, maxTails: nat) {
    && Contiguous(d.tails, k) && k <= maxTails
    && IsSuffix(Retained(d, k), history)
    && UnderPlusOneLine(d.live.GetOr([]), maxBytes)
    && (forall n :: n in d.tails ==> Size(d.tails[n]) >= maxBytes)
    && (|Retained(d, k)| < |history| ==> k == maxTails)
  }

  /** With slot n + 1 free, tails 1 to n move up by one and nothing else moves. */
  lemma {:induction false} ShiftAt(tails: Tails, n: nat, j: nat)
    requires n + 1 !in tails
    ensures j in ShiftDown(tails, n) <==> if 1 <= j <= n + 1 then j >= 2 && j - 1 in tails else j in tails
    ensures j in ShiftDown(tails, n) ==> ShiftDown(tails, n)[j] == if 1 <= j <= n + 1 then tails[j - 1] else tails[j]
    decreases n
  {
    if n > 0 { ShiftAt(MoveTail(tails, n), n - 1, j); }
  }

  function TailsAfter(k: nat, maxTails: nat): nat {
    if k < maxTails then k + 1 else k
  }

  lemma RotateAt(d: Dir, maxTails: nat, k: nat, j: nat)
    requires d.live.Some? && maxTails >= 1 && Contiguous(d.tails, k) && k <= maxTails
    ensures j in Rotate(d, maxTails).tails <==> 1 <= j <= TailsAfter(k, maxTails)
    ensures j in Rotate(d, maxTails).tails ==>
              Rotate(d, maxTails).tails[j] == if j == 1 then d.live.value else d.tails[j - 1]
  {
    ShiftAt(d.tails - {maxTails}, maxTails - 1, j);
  }

  lemma {:induction false} KeptShifted(old': Tails, new': Tails, k: nat, live: seq<Line>)
    requires HasTails(old', k) && HasTails(new', k + 1)
    requires forall n :: 1 <= n <= k + 1 ==> new'[n] == if n == 1 then live else old'[n - 1]
    ensures Kept(new', k + 1) == Kept(old', k) + live
  {
    if k == 0 {
      assert Kept(new', 0) == [] && live + [] == live;
    } else {
      KeptShifted(old', new', k - 1, live);
      assert old'[k] + (Kept(old', k - 1) + live) == old'[k] + Kept(old', k - 1) + live;
    }
  }

  /** A rotation keeps everything but, when all tails are in use, the oldest of them. */
  lemma RotateRetains(d: Dir, maxTails: nat, k: nat)
    requires d.live.Some? && maxTails >= 1 && Contiguous(d.tails, k) && k <= maxTails
    ensures Contiguous(Rotate(d, maxTails).tails, TailsAfter(k, maxTails))
    ensures Retained(d, k)
         == (if k == maxTails then d.tails[k] else []) + Retained(Rotate(d, maxTails), TailsAfter(k, maxTails))
  {
    var r, k' := Rotate(d, maxTails), TailsAfter(k, maxTails);
    forall j: nat ensures j in r.tails <==> 1 <= j <= k' { RotateAt(d, maxTails, k, j); }
    forall j: nat | 1 <= j <= k' ensures r.tails[j] == if j == 1 then d.live.value else d.tails[j - 1] {
      RotateAt(d, maxTails, k, j);
    }
    hide Rotate;
    KeptShifted(d.tails, r.tails, k' - 1, d.live.value);
    RetainedEmptyLive(r, k');
    if k == maxTails { Reassociate(d.tails[k], Kept(d.tails, k - 1), d.live.value); }
  }

  lemma RetainedEmptyLive(d: Dir, k: nat)
    requires HasTails(d.tails, k) && d.live == Some([])
    ensures Retained(d, k) == Kept(d.tails, k)
  {}

  lemma Reassociate<T>(a: seq<T>, b: seq<T>, c: seq<T>)
    ensures a + b + c == a + (b + c)
  {}

  lemma SuffixOfSuffix<T>(dropped: seq<T>, s: seq<T>, whole: seq<T>)
    requires IsSuffix(dropped + s, whole)
    ensures IsSuffix(s, whole)
  {
    assert whole[|whole| - |s|..] == whole[|whole| - |dropped + s|..][|dropped|..] == s;
  }

  lemma RotateKeeps(d: Dir, k: nat, history: seq<Line>, maxBytes: int, maxTails: nat)
    requires Inv(d, k, history, maxBytes, maxTails) && maxTails >= 1 && Full(d, maxBytes)
    ensures Inv(Rotate(d, maxTails), TailsAfter(k, maxTails), history, maxBytes, maxTails)
  {
    var r, k' := Rotate(d, maxTails), TailsAfter(k, maxTails);
    RotateRetains(d, maxTails, k);
    SuffixOfSuffix(if k == maxTails then d.tails[k] else [], Retained(r, k'), history);
    forall n | n in r.tails ensures Size(r.tails[n]) >= maxBytes { RotateAt(d, maxTails, k, n); }
    if k < maxTails { assert [] + Retained(r, k') == Retained(r, k'); }
    hide Retained, Kept, ShiftDown, Size;
  }

  lemma SuffixGrows<T>(s: seq<T>, whole: seq<T>, x: T)
    requires IsSuffix(s, whole)
    ensures IsSuffix(s + [x], whole + [x])
  {
    var k := |whole| - |s|;
    assert (whole + [x])[k..] == whole[k..] + [x];
  }

  lemma WriteKeeps(d: Dir, k: nat, history: seq<Line>, line: Line, maxBytes: int, maxTails: nat)
    requires Inv(d, k, history, maxBytes, maxTails) && (d.live.GetOr([]) == [] || !Full(d, maxBytes))
    ensures Inv(d.(live := Some(d.live.GetOr([]) + [line])), k, history + [line], maxBytes, maxTails)
  {
    var after := d.(live := Some(d.live.GetOr([]) + [line]));
    assert HasTails(d.tails, k);
    hide Retained, Kept, IsSuffix, Contiguous, HasTails, UnderPlusOneLine;
    RetainedGrows(d, k, line);
    SuffixGrows(Retained(d, k), history, line);
    UnderGrows(d.live.GetOr([]), line, maxBytes);
  }

  lemma RetainedGrows(d: Dir, k: nat, line: Line)
    requires HasTails(d.tails, k)
    ensures Retained(d.(live := Some(d.live.GetOr([]) + [line])), k) == Retained(d, k) + [line]
  {
    Reassociate(Kept(d.tails, k), d.live.GetOr([]), [line]);
  }

  lemma UnderGrows(live: seq<Line>, line: Line, maxBytes: int)
    requires live == [] || Size(live) < maxBytes
    ensures UnderPlusOneLine(live + [line], maxBytes)
  {
    assert (live + [line])[..|live|] == live;
  }

  lemma StepKeeps(d: Dir, k: nat, history: seq<Line>, e: Write, maxBytes: int, maxTails: nat) returns (k': nat)
    requires Inv(d, k, history, maxBytes, maxTails) && maxTails >= 1
    ensures Inv(Step(d, e, maxBytes, maxTails), k', Logged(history, e), maxBytes, maxTails)
  {
    k' := k;
    var r := Rotated(d, maxBytes, maxTails);
    if Full(d, maxBytes) {
      RotateKeeps(d, k, history, maxBytes, maxTails);
      k' := TailsAfter(k, maxTails);
    }
    if e.written { WriteKeeps(r, k', history, e.line, maxBytes, maxTails); }
    hide Inv, ShiftDown;
  }

  // ---- Runs ----

  function Run(d: Dir, es: seq<Write>, maxBytes: int, maxTails: nat): Dir
    decreases |es|
  {
    if es == [] then d else Run(Step(d, es[0], maxBytes, maxTails), es[1..], maxBytes, maxTails)
  }

  /** Every line the log was given and could write, in order. */
  function History(before: seq<Line>, es: seq<Write>): seq<Line>
    decreases |es|
  {
    if es == [] then before else History(Logged(before, es[0]), es[1..])
  }

  lemma {:induction false} RunKeeps(d: Dir, k: nat, history: seq<Line>, es: seq<Write>, maxBytes: int, maxTails: nat)
    returns (k': nat)
    requires Inv(d, k, history, maxBytes, maxTails) && maxTails >= 1
    ensures Inv(Run(d, es, maxBytes, maxTails), k', History(history, es), maxBytes, maxTails)
    decreases |es|
  {
    k' := k;
    if es != [] {
      k' := StepKeeps(d, k, history, es[0], maxBytes, maxTails);
      k' := RunKeeps(Step(d, es[0], maxBytes, maxTails), k', Logged(history, es[0]), es[1..], maxBytes, maxTails);
    }
  }

  const EMPTY := Dir(None, map[])

  /** From an empty directory, whatever is appended and whichever writes fail. */
  lemma RunFromEmpty(es: seq<Write>, maxBytes: int, maxTails: nat) returns (k: nat)
    requires maxTails >= 1
    ensures Inv(Run(EMPTY, es, maxBytes, maxTails), k, History([], es), maxBytes, maxTails)
  {
    k := RunKeeps(EMPTY, 0, [], es, maxBytes, maxTails);
  }

  lemma {:induction false} SizeConcat(a: seq<Line>, b: seq<Line>)
    ensures Size(a + b) == Size(a) + Size(b)
  {
    if b == [] {
      assert a + b == a;
    } else {
      assert (a + b)[..|a + b| - 1] == a + b[..|b| - 1];
      SizeConcat(a, b[..|b| - 1]);
    }
  }

  lemma {:induction false} KeptSize(tails: Tails, k: nat, maxBytes: int)
    requires HasTails(tails, k) && forall n :: 1 <= n <= k ==> Size(tails[n]) >= maxBytes
    ensures Size(Kept(tails, k)) >= k * maxBytes
  {
    if k > 0 {
      KeptSize(tails, k - 1, maxBytes);
      SizeConcat(tails[k], Kept(tails, k - 1));
      assert k * maxBytes == (k - 1) * maxBytes + maxBytes;
    }
  }

  /** As long as less than that is kept, nothing has been dropped. */
  lemma DroppedMeansPlentyKept(d: Dir, k: nat, history: seq<Line>, maxBytes: int, maxTails: nat)
    requires Inv(d, k, history, maxBytes, maxTails) && Retained(d, k) != history
    ensures Size(Retained(d, k)) >= maxTails * maxBytes
  {
    assert |Retained(d, k)| < |history|;
    KeptSize(d.tails, k, maxBytes);
    SizeConcat(Kept(d.tails, k), d.live.GetOr([]));
  }

  // ---- Reading ----

  datatype Filter = Filter(
    since: Option<Id>, producer: Option<Id>, action: Option<Id>, severity: Option<Severity>, engineId: Option<Id>)

  /** An empty string filters nothing. */
  predicate Given(o: Option<Id>) {
    o.Some? && o.value != []
  }

  predicate Matches(r: AuditRecord, f: Filter) {
    && (Given(f.producer) ==> r.producer == f.producer.value)
    && (Given(f.action) ==> r.action == f.action.value)
    && (f.severity.Some? ==> r.severity == f.severity)
    && (Given(f.since) ==> !Less(r.ts, f.since.value))
    && (Given(f.engineId) ==> r.engine == f.engineId)
  }

  function MatchesOf(lines: seq<Line>, f: Filter): seq<AuditRecord> {
    if lines == [] then []
    else
      var last := lines[|lines| - 1];
      MatchesOf(lines[..|lines| - 1], f)
      + if last.record.Some? && Matches(last.record.value, f) then [last.record.value] else []
  }

  lemma {:induction false} MatchesConcat(a: seq<Line>, b: seq<Line>, f: Filter)
    ensures MatchesOf(a + b, f) == MatchesOf(a, f) + MatchesOf(b, f)
  {
    if b == [] {
      assert a + b == a;
    } else {
      assert (a + b)[..|a + b| - 1] == a + b[..|b| - 1];
      MatchesConcat(a, b[..|b| - 1], f);
    }
  }

  /** The live file, then tail 1 to tail n. */
  function Visible(d: Dir, n: nat): seq<Line> {
    if n == 0 then d.live.GetOr([])
    else Visible(d, n - 1) + if n in d.tails then d.tails[n] else []
  }

  /** A record goes behind a newer one. */
  predicate OlderThan(a: AuditRecord, b: AuditRecord) {
    Less(a.ts, b.ts)
  }

  lemma OlderIsWeakOrder()
    ensures WeakOrder(OlderThan)
  {
    forall a: AuditRecord, b: AuditRecord | OlderThan(a, b) ensures !OlderThan(b, a) { LessTrichotomy(a.ts, b.ts); }
    forall a: AuditRecord, b: AuditRecord, c: AuditRecord | OlderThan(a, c) ensures OlderThan(a, b) || OlderThan(b, c) {
      LessTrichotomy(a.ts, b.ts);
      LessTrichotomy(b.ts, c.ts);
      if Less(b.ts, a.ts) { LessTransitive(b.ts, a.ts, c.ts); }
    }
  }

  function ReadOf(d: Dir, f: Filter, maxTails: nat): seq<AuditRecord> {
    Sort(MatchesOf(Visible(d, maxTails), f), OlderThan)
  }

  lemma SwapParts<T>(v: seq<T>, r: seq<T>, t: seq<T>)
    requires multiset(v) == multiset(r)
    ensures multiset(v + t) == multiset(t + r)
  {}

  lemma MatchesStep(d: Dir, n: nat, f: Filter)
    requires n >= 1 && HasTails(d.tails, n)
    ensures MatchesOf(Visible(d, n), f) == MatchesOf(Visible(d, n - 1), f) + MatchesOf(d.tails[n], f)
    ensures MatchesOf(Retained(d, n), f) == MatchesOf(d.tails[n], f) + MatchesOf(Retained(d, n - 1), f)
  {
    MatchesConcat(Visible(d, n - 1), d.tails[n], f);
    MatchesConcat(d.tails[n], Retained(d, n - 1), f);
    Reassociate(d.tails[n], Kept(d.tails, n - 1), d.live.GetOr([]));
  }

  lemma HasFewer(tails: Tails, n: nat)
    requires n > 0 && HasTails(tails, n)
    ensures HasTails(tails, n - 1) && n in tails
  {}

  lemma NoTailsVisible(d: Dir)
    ensures Visible(d, 0) == Retained(d, 0)
  {
    assert [] + d.live.GetOr([]) == d.live.GetOr([]);
  }

  lemma {:induction false} VisibleIsRetained(d: Dir, n: nat, f: Filter)
    requires HasTails(d.tails, n)
    ensures multiset(MatchesOf(Visible(d, n), f)) == multiset(MatchesOf(Retained(d, n), f))
  {
    hide *;
    if n == 0 {
      NoTailsVisible(d);
    } else {
      HasFewer(d.tails, n);
      VisibleIsRetained(d, n - 1, f);
      MatchesStep(d, n, f);
      SwapParts(MatchesOf(Visible(d, n - 1), f), MatchesOf(Retained(d, n - 1), f), MatchesOf(d.tails[n], f));
    }
  }

  lemma {:induction false} NothingBeyond(d: Dir, k: nat, n: nat)
    requires Contiguous(d.tails, k) && k <= n
    ensures Visible(d, n) == Visible(d, k)
  {
    if k < n { NothingBeyond(d, k, n - 1); }
  }

  /** Each retained record that matches once, none newer than the one before it. */
  lemma ReadIsRetained(d: Dir, k: nat, history: seq<Line>, f: Filter, maxBytes: int, maxTails: nat)
    requires Inv(d, k, history, maxBytes, maxTails)
    ensures multiset(ReadOf(d, f, maxTails)) == multiset(MatchesOf(Retained(d, k), f))
    ensures forall i, j :: 0 <= i < j < |ReadOf(d, f, maxTails)| ==>
              !Less(ReadOf(d, f, maxTails)[i].ts, ReadOf(d, f, maxTails)[j].ts)
  {
    OlderIsWeakOrder();
    SortIsStable(MatchesOf(Visible(d, maxTails), f), OlderThan);
    NothingBeyond(d, k, maxTails);
    VisibleIsRetained(d, k, f);
    var r := ReadOf(d, f, maxTails);
    assert forall i, j :: 0 <= i < j < |r| ==> !OlderThan(r[i], r[j]);
  }

  /** Every field the filter gives, an empty string giving none, is the record's; since is inclusive. */
  predicate Passes(r: AuditRecord, f: Filter) {
    && f.producer in {None, Some([]), Some(r.producer)}
    && f.action in {None, Some([]), Some(r.action)}
    && (f.severity == None || f.severity == r.severity)
    && (f.since == None || f.since == Some([]) || f.since == Some(r.ts) || Less(f.since.value, r.ts))
    && (f.engineId in {None, Some([])} || f.engineId == r.engine)
  }

  lemma {:induction false} MatchesOfIff(lines: seq<Line>, f: Filter, r: AuditRecord)
    ensures r in MatchesOf(lines, f) <==> Passes(r, f) && exists i :: 0 <= i < |lines| && lines[i].record == Some(r)
  {
    if lines != [] {
      var init, last := lines[..|lines| - 1], lines[|lines| - 1];
      MatchesOfIff(init, f, r);
      MatchesIff(r, f);
      assert forall i :: 0 <= i < |init| ==> init[i] == lines[i];
      hide Passes, Matches;
    }
  }

  lemma MatchesIff(r: AuditRecord, f: Filter)
    ensures Matches(r, f) <==> Passes(r, f)
  {
    if f.since.Some? { LessTrichotomy(r.ts, f.since.value); }
  }

  /** What read returns: the records of retained lines that pass the filter. */
  lemma ReadSelects(d: Dir, k: nat, history: seq<Line>, f: Filter, maxBytes: int, maxTails: nat, r: AuditRecord)
    requires Inv(d, k, history, maxBytes, maxTails)
    ensures r in ReadOf(d, f, maxTails) <==>
              Passes(r, f) && exists i :: 0 <= i < |Retained(d, k)| && Retained(d, k)[i].record == Some(r)
  {
    ReadIsRetained(d, k, history, f, maxBytes, maxTails);
    MatchesOfIff(Retained(d, k), f, r);
    assert r in ReadOf(d, f, maxTails) <==> r in multiset(ReadOf(d, f, maxTails));
    assert r in MatchesOf(Retained(d, k), f) <==> r in multiset(MatchesOf(Retained(d, k), f));
    hide ReadOf, MatchesOf, Retained, Inv, Passes;
  }

  /** Without tails a rotation hides everything written before. */
  lemma NoTailsForget(d: Dir, line: Line, maxBytes: int)
    requires Full(d, maxBytes)
    ensures Visible(Step(d, Write(line, true), maxBytes, 0), 0) == [line]
  {}

  // ---- The log itself ----

  class AuditLog {
    const maxBytes: int
    const maxTails: nat
    var live: Option<seq<Line>>
    var tails: Tails

    constructor (dir: Dir, maxBytes: int, maxTails: nat)
      ensures this.maxBytes == maxBytes && this.maxTails == maxTails && View() == dir
    {
      this.maxBytes, this.maxTails := maxBytes, maxTails;
      live, tails := dir.live, dir.tails;
    }

    function View(): Dir
      reads this
    {
      Dir(live, tails)
    }

    method Append(line: Line, written: bool)
      modifies this
      ensures View() == Step(old(View()), Write(line, written), maxBytes, maxTails)
    {
      RotateIfNeeded();
      if written { live := Some(live.GetOr([]) + [line]); }
    }

    method RotateIfNeeded()
      modifies this
      ensures View() == Rotated(old(View()), maxBytes, maxTails)
    {
      if live.None? { return; }
      if Size(live.value) < maxBytes { return; }
      if maxTails in tails { tails := tails - {maxTails}; }
      assert tails == old(tails) - {maxTails};
      ghost var top := if maxTails == 0 then 0 else maxTails - 1;
      var n: int := maxTails - 1;
      while n >= 1
        invariant n <= top && live == old(live)
        invariant ShiftDown(tails, if n < 0 then 0 else n) == ShiftDown(old(tails) - {maxTails}, top)
      {
        if n in tails { tails := (tails - {n})[n + 1 := tails[n]]; }
        n := n - 1;
      }
      tails := tails[1 := live.value];
      live := Some([]);
    }

    method Read(f: Filter) returns (records: seq<AuditRecord>)
      ensures records == ReadOf(View(), f, maxTails)
    {
      records := ReadFile([], live.GetOr([]), f);
      for n := 1 to maxTails + 1
        invariant records == MatchesOf(Visible(View(), n - 1), f)
      {
        if n !in tails {
          assert Visible(View(), n - 1) + [] == Visible(View(), n - 1);
          continue;
        }
        MatchesConcat(Visible(View(), n - 1), tails[n], f);
        records := ReadFile(records, tails[n], f);
      }
      records := Sort(records, OlderThan);
    }

    /** Lines that do not parse are passed over. */
    static method ReadFile(before: seq<AuditRecord>, lines: seq<Line>, f: Filter) returns (records: seq<AuditRecord>)
      ensures records == before + MatchesOf(lines, f)
    {
      records := before;
      for i := 0 to |lines|
        invariant records == before + MatchesOf(lines[..i], f)
      {
        assert lines[..i + 1][..i] == lines[..i];
        if lines[i].record.None? { continue; }
        if !Matches(lines[i].record.value, f) { continue; }
        records := records + [lines[i].record.value];
      }
      assert lines[..|lines|] == lines;
    }
  }
}
