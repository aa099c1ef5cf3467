/**
 * packages/coworker-utils/src/secret-scanner.ts: scan and redact. redact moves its cursor to the
 * end of each hit in turn, which takes it back when a hit lies inside an earlier one; the text
 * between the two ends then stays. It is proved what redact writes, exactly when that is what
 * redaction should mean, and that the meaning is idempotent.
 */
module SecretScanner {
  import opened Wrappers
  import opened SecretPatterns
  import opened StableSort

  function Marker(kind: string): string {
    "[REDACTED:" + kind + "]"
  }

  /** text.slice: empty when the bounds are the wrong way round. */
  function Slice(text: string, from: nat, to: nat): string {
    if from <= to <= |text| then text[from..to] else ""
  }

  // ---- What redaction means ----

  /** The markers of the hits that start at c. */
  function MarkersAt(hits: seq<Hit>, c: nat): string {
    if hits == [] then ""
    else MarkersAt(hits[..|hits| - 1], c) + if hits[|hits| - 1].start == c then Marker(hits[|hits| - 1].kind) else ""
  }

  /** A walk over the first c positions: one marker where a hit starts, and the characters that are kept. */
  function Walk(text: string, hits: seq<Hit>, kept: set<nat>, c: nat): string
    requires c <= |text|
  {
    if c == 0 then MarkersAt(hits, 0)
    else Walk(text, hits, kept, c - 1) + (if c - 1 in kept then [text[c - 1]] else "") + MarkersAt(hits, c)
  }

  function Uncovered(text: string, hits: seq<Hit>): set<nat> {
    set c: nat | 0 <= c < |text| && !Covered(hits, c)
  }

  /** Redaction proper: every covered character dropped, one marker a hit, the rest in order. */
  function Ideal(text: string, hits: seq<Hit>): string {
    Walk(text, hits, Uncovered(text, hits), |text|)
  }

  // ---- What redact does ----

  datatype Progress = Progress(out: string, cursor: nat)

  function AfterHits(text: string, hits: seq<Hit>): Progress {
    if hits == [] then Progress("", 0)
    else
      var before, h := AfterHits(text, hits[..|hits| - 1]), hits[|hits| - 1];
      Progress(before.out + Slice(text, before.cursor, h.start) + Marker(h.kind), h.end)
  }

  /** Written so far, and the text since then up to c. */
  function Flushed(text: string, hits: seq<Hit>, c: nat): string {
    AfterHits(text, hits).out + Slice(text, AfterHits(text, hits).cursor, c)
  }

  function Redacted(text: string, hits: seq<Hit>): string {
    Flushed(text, hits, |text|)
  }

  /** The last hit that has started by c. */
  function LastStarted(hits: seq<Hit>, c: nat): Option<Hit> {
    if hits == [] then None
    else if hits[|hits| - 1].start <= c then Some(hits[|hits| - 1])
    else LastStarted(hits[..|hits| - 1], c)
  }

  predicate Reopened(hits: seq<Hit>, c: nat) {
    LastStarted(hits, c).None? || LastStarted(hits, c).value.end <= c
  }

  /** The positions redact keeps: only the last started hit is looked at. */
  function Open(text: string, hits: seq<Hit>): set<nat> {
    set c: nat | 0 <= c < |text| && Reopened(hits, c)
  }

  lemma {:induction false} LaterHitsDoNotMatter(hits: seq<Hit>, h: Hit, c: nat)
    requires c < h.start
    ensures MarkersAt(hits + [h], c) == MarkersAt(hits, c) && LastStarted(hits + [h], c) == LastStarted(hits, c)
  {
    assert (hits + [h])[..|hits|] == hits;
  }

  lemma {:induction false} WalkBeforeHit(text: string, hits: seq<Hit>, h: Hit, c: nat)
    requires c < h.start && c <= |text|
    ensures Walk(text, hits + [h], Open(text, hits + [h]), c) == Walk(text, hits, Open(text, hits), c)
  {
    LaterHitsDoNotMatter(hits, h, c);
    if c > 0 {
      var before, after := Open(text, hits), Open(text, hits + [h]);
      WalkBeforeHit(text, hits, h, c - 1);
      WalkUnfolds(text, hits, before, c);
      WalkUnfolds(text, hits + [h], after, c);
      assert c - 1 in before <==> c - 1 in after by { ReopenedSame(hits, h, c - 1); }
      hide *;
    }
  }

  /** Up to its start a further hit adds its marker. */
  lemma WalkToHit(text: string, hits: seq<Hit>, h: Hit)
    requires h.start < |text|
    ensures Walk(text, hits + [h], Open(text, hits + [h]), h.start)
         == Walk(text, hits, Open(text, hits), h.start) + Marker(h.kind)
  {
    var c := h.start;
    var before, after := Open(text, hits), Open(text, hits + [h]);
    assert MarkersAt(hits + [h], c) == MarkersAt(hits, c) + Marker(h.kind) by { assert (hits + [h])[..|hits|] == hits; }
    if c > 0 {
      WalkBeforeHit(text, hits, h, c - 1);
      WalkUnfolds(text, hits, before, c);
      WalkUnfolds(text, hits + [h], after, c);
      assert c - 1 in before <==> c - 1 in after by { ReopenedSame(hits, h, c - 1); }
      hide *;
      var walked, kept := Walk(text, hits, before, c - 1), if c - 1 in before then [text[c - 1]] else "";
      Reassociate(walked, kept, MarkersAt(hits, c), Marker(h.kind));
    }
  }

  lemma Reassociate(a: string, b: string, c: string, d: string)
    ensures a + b + (c + d) == (a + b + c) + d
  {}

  lemma ReopenedSame(hits: seq<Hit>, h: Hit, c: nat)
    requires c < h.start
    ensures Reopened(hits, c) == Reopened(hits + [h], c)
  {
    LaterHitsDoNotMatter(hits, h, c);
  }

  lemma WalkUnfolds(text: string, hits: seq<Hit>, kept: set<nat>, c: nat)
    requires 0 < c <= |text|
    ensures Walk(text, hits, kept, c)
         == Walk(text, hits, kept, c - 1) + (if c - 1 in kept then [text[c - 1]] else "") + MarkersAt(hits, c)
  {}

  lemma {:induction false} NoMarkersLater(hits: seq<Hit>, c: nat)
    requires forall i :: 0 <= i < |hits| ==> hits[i].start < c
    ensures MarkersAt(hits, c) == ""
  {
    if hits != [] { NoMarkersLater(hits[..|hits| - 1], c); }
  }

  ghost predicate StartedBy(hits: seq<Hit>, c: nat) {
    forall i :: 0 <= i < |hits| ==> hits[i].start <= c
  }

  lemma FlushedAtHit(text: string, hits: seq<Hit>, h: Hit)
    requires InText(h, text)
    ensures Flushed(text, hits + [h], h.start) == Flushed(text, hits, h.start) + Marker(h.kind)
  {
    assert (hits + [h])[..|hits|] == hits;
  }

  lemma FlushedOneMore(text: string, hits: seq<Hit>, c: nat)
    requires 0 < c <= |text| && StartedBy(hits, c - 1) && AllInText(hits, text)
    ensures Flushed(text, hits, c)
         == Flushed(text, hits, c - 1) + if c - 1 in Open(text, hits) then [text[c - 1]] else ""
  {
    FlushOneMore(text, hits, c);
    hide *;
    var p, kept := AfterHits(text, hits), if c - 1 in Open(text, hits) then [text[c - 1]] else "";
    assert p.out + (Slice(text, p.cursor, c - 1) + kept) == (p.out + Slice(text, p.cursor, c - 1)) + kept;
  }

  /** Past the last start, what redact has written and would flush is the walk. */
  lemma {:induction false} RedactFollowsWalk(text: string, hits: seq<Hit>, c: nat)
    requires AllInText(hits, text) && StartsOrdered(hits) && StartedBy(hits, c) && c <= |text|
    ensures Flushed(text, hits, c) == Walk(text, hits, Open(text, hits), c)
    decreases |hits|, c
  {
    if hits != [] && c == hits[|hits| - 1].start {
      var init, h := hits[..|hits| - 1], hits[|hits| - 1];
      assert hits == init + [h] && InText(h, text);
      RedactFollowsWalk(text, init, c);
      WalkToHit(text, init, h);
      FlushedAtHit(text, init, h);
      hide *;
    } else if c > 0 {
      NoMarkersLater(hits, c);
      RedactFollowsWalk(text, hits, c - 1);
      FlushedOneMore(text, hits, c);
      WalkUnfolds(text, hits, Open(text, hits), c);
      hide *;
    }
  }

  lemma FlushOneMore(text: string, hits: seq<Hit>, c: nat)
    requires 0 < c <= |text| && StartedBy(hits, c - 1)
    ensures var cursor := AfterHits(text, hits).cursor;
            Slice(text, cursor, c)
            == Slice(text, cursor, c - 1) + if c - 1 in Open(text, hits) then [text[c - 1]] else ""
  {
    assert hits != [] ==> LastStarted(hits, c - 1) == Some(hits[|hits| - 1]);
    assert c - 1 in Open(text, hits) <==> AfterHits(text, hits).cursor <= c - 1;
    hide AfterHits, LastStarted, Open, Reopened;
    SliceOneMore(text, AfterHits(text, hits).cursor, c);
  }

  lemma SliceOneMore(text: string, cursor: nat, c: nat)
    requires 0 < c <= |text|
    ensures Slice(text, cursor, c) == Slice(text, cursor, c - 1) + if cursor <= c - 1 then [text[c - 1]] else ""
  {}

  /** redact is the walk that keeps a character when the last started hit has ended. */
  lemma RedactIsWalk(text: string, hits: seq<Hit>)
    requires AllInText(hits, text) && StartsOrdered(hits)
    ensures Redacted(text, hits) == Walk(text, hits, Open(text, hits), |text|)
  {
    forall i | 0 <= i < |hits| ensures hits[i].start <= |text| { assert InText(hits[i], text); }
    RedactFollowsWalk(text, hits, |text|);
    hide Walk, AfterHits;
  }

  // ---- When that is redaction ----

  /** A hit that ends before an earlier one does is followed by another hit before any text. */
  predicate NeverReopens(hits: seq<Hit>) {
    forall i, j :: 0 <= i < j < |hits| && hits[j].end < hits[i].end ==>
      exists k :: j < k < |hits| && hits[k].start <= hits[j].end
  }

  lemma {:induction false} LastStartedIs(hits: seq<Hit>, c: nat, j: nat)
    requires StartsOrdered(hits) && j < |hits| && hits[j].start <= c
    requires forall k :: j < k < |hits| ==> hits[k].start > c
    ensures LastStarted(hits, c) == Some(hits[j])
  {
    if j < |hits| - 1 { LastStartedIs(hits[..|hits| - 1], c, j); }
  }

  lemma {:induction false} LastStartedAt(hits: seq<Hit>, c: nat) returns (j: int)
    requires StartsOrdered(hits)
    ensures -1 <= j < |hits| && forall k :: j < k < |hits| ==> hits[k].start > c
    ensures j >= 0 ==> LastStarted(hits, c) == Some(hits[j]) && hits[j].start <= c
    ensures j == -1 ==> LastStarted(hits, c).None?
  {
    if hits == [] {
      j := -1;
    } else if hits[|hits| - 1].start <= c {
      j := |hits| - 1;
    } else {
      j := LastStartedAt(hits[..|hits| - 1], c);
    }
  }

  /** An uncovered character is kept by redact. */
  lemma UncoveredIsOpen(text: string, hits: seq<Hit>)
    requires StartsOrdered(hits)
    ensures Uncovered(text, hits) <= Open(text, hits)
  {
    forall c: nat | c in Uncovered(text, hits) ensures c in Open(text, hits) {
      var j := LastStartedAt(hits, c);
      if j >= 0 { assert !Covers(hits[j], c); }
    }
  }

  /** A covered character that stays. */
  ghost predicate Leaks(text: string, hits: seq<Hit>, c: nat) {
    c < |text| && Covered(hits, c) && Reopened(hits, c)
  }

  lemma LeakMeansReopens(text: string, hits: seq<Hit>, c: nat)
    requires StartsOrdered(hits) && AllInText(hits, text) && Leaks(text, hits, c)
    ensures !NeverReopens(hits)
  {
    var i :| 0 <= i < |hits| && Covers(hits[i], c);
    var j := LastStartedAt(hits, c);
    assert i < j && hits[j].end <= c < hits[i].end;
    assert forall k :: j < k < |hits| ==> hits[k].start > hits[j].end;
  }

  lemma ReopensMeansLeak(text: string, hits: seq<Hit>) returns (c: nat)
    requires StartsOrdered(hits) && AllInText(hits, text) && !NeverReopens(hits)
    ensures Leaks(text, hits, c)
  {
    var i, j :| 0 <= i < j < |hits| && hits[j].end < hits[i].end
      && !exists k :: j < k < |hits| && hits[k].start <= hits[j].end;
    c := hits[j].end;
    assert InText(hits[i], text) && InText(hits[j], text);
    assert Covers(hits[i], c);
    LastStartedIs(hits, c, j);
  }

  lemma {:induction false} MoreKeptIsLonger(text: string, hits: seq<Hit>, fewer: set<nat>, more: set<nat>, c: nat)
    requires fewer <= more && c <= |text|
    ensures |Walk(text, hits, fewer, c)| <= |Walk(text, hits, more, c)|
    ensures (exists x :: 0 <= x < c && x in more && x !in fewer) ==>
              |Walk(text, hits, fewer, c)| < |Walk(text, hits, more, c)|
  {
    if c > 0 { MoreKeptIsLonger(text, hits, fewer, more, c - 1); }
  }

  /** redact redacts exactly when no hit inside another one lets the text reopen. */
  lemma RedactIsIdealIff(text: string, hits: seq<Hit>)
    requires StartsOrdered(hits) && AllInText(hits, text)
    ensures Redacted(text, hits) == Ideal(text, hits) <==> NeverReopens(hits)
  {
    RedactIsWalk(text, hits);
    UncoveredIsOpen(text, hits);
    if NeverReopens(hits) {
      forall c: nat | c in Open(text, hits) ensures c in Uncovered(text, hits) {
        if Covered(hits, c) { LeakMeansReopens(text, hits, c); }
      }
      assert Open(text, hits) == Uncovered(text, hits);
    } else {
      var c := ReopensMeansLeak(text, hits);
      assert c in Open(text, hits) && c !in Uncovered(text, hits);
      MoreKeptIsLonger(text, hits, Uncovered(text, hits), Open(text, hits), |text|);
    }
  }

  ghost predicate EndsOrdered(hits: seq<Hit>) {
    forall i, j :: 0 <= i < j < |hits| ==> hits[i].end <= hits[j].end
  }

  /** The ordering a caller would hope for is enough. */
  lemma OrderedEndsRedact(text: string)
    requires EndsOrdered(Scanned(text))
    ensures Redacted(text, Scanned(text)) == Ideal(text, Scanned(text))
  {
    ScanSound(text);
    RedactIsIdealIff(text, Scanned(text));
  }

  // ---- The methods ----

  method Scan(text: string) returns (hits: seq<Hit>)
    ensures hits == Scanned(text)
  {
    hits := [];
    for n := 0 to |PATTERNS|
      invariant hits == Found(text, n)
    {
      PatternsAreSane(n);
      hits := ScanPattern(PATTERNS[n], text, hits);
    }
    hits := Sort(hits, StartsAfter);
  }

  /** One pattern: exec until it fails, each time from where the last match ended. */
  method ScanPattern(p: Pattern, text: string, before: seq<Hit>) returns (hits: seq<Hit>)
    requires Sane(p)
    ensures hits == before + HitsOf(p, text, 0)
  {
    hits := before;
    var lastIndex := 0;
    var m := Exec(p, text, lastIndex);
    while m.Some?
      invariant m == Exec(p, text, lastIndex)
      invariant hits + HitsOf(p, text, lastIndex) == before + HitsOf(p, text, 0)
      decreases |text| - lastIndex
    {
      hits := hits + [m.value];
      lastIndex := m.value.end;
      m := Exec(p, text, lastIndex);
    }
  }

  method Redact(text: string) returns (out: string)
    ensures out == Redacted(text, Scanned(text))
  {
    var hits := Scan(text);
    if hits == [] { return text; }
    out := "";
    var cursor := 0;
    for i := 0 to |hits|
      invariant Progress(out, cursor) == AfterHits(text, hits[..i])
    {
      assert hits[..i + 1][..i] == hits[..i];
      out := out + Slice(text, cursor, hits[i].start) + Marker(hits[i].kind);
      cursor := hits[i].end;
    }
    assert hits[..|hits|] == hits;
    out := out + Slice(text, cursor, |text|);
  }
}
