/**
 * What is left in a redacted text. A secret cannot reach across a marker, so whatever still
 * matches lies in one of the stretches redact copies: then, and only then, a second redaction
 * changes the text.
 */
module RedactedText {
  import opened Wrappers
  import opened SecretPatterns
  import opened SecretScanner

  ghost predicate HasMatch(s: string) {
    exists p, i: nat :: 0 <= p < |PATTERNS| && MatchEnd(PATTERNS[p], s, i).Some?
  }

  /** The same characters elsewhere match as well. */
  lemma MatchMoves(s: string, p: nat, i: nat, t: string, j: nat)
    requires p < |PATTERNS| && MatchEnd(PATTERNS[p], s, i).Some?
    requires var e := MatchEnd(PATTERNS[p], s, i).value;
             i <= e <= |s| ==> j + (e - i) <= |t| && t[j..j + (e - i)] == s[i..e]
    ensures MatchEnd(PATTERNS[p], t, j).Some? && HasMatch(t)
  {
    PatternsAreSane(p);
    MatchShape(PATTERNS[p], PATTERNS[p].prefixes, s, i);
    MatchTransfers(PATTERNS[p], PATTERNS[p].prefixes, s, i, t, j);
  }

  /** The stops of a marker are too close together for a secret, and no secret contains one. */
  lemma MatchBesideMarker(a: string, kind: string, b: string, p: nat, i: nat)
    requires |kind| <= LONGEST_KIND && p < |PATTERNS| && MatchEnd(PATTERNS[p], a + Marker(kind) + b, i).Some?
    ensures var e := MatchEnd(PATTERNS[p], a + Marker(kind) + b, i).value;
            i < e <= |a + Marker(kind) + b| && (e <= |a| || i >= |a| + |Marker(kind)|)
  {
    var s, n := a + Marker(kind) + b, |a|;
    PatternsAreSane(p);
    MatchShape(PATTERNS[p], PATTERNS[p].prefixes, s, i);
    assert s[n] == '[' && s[n + 9] == ':' && s[n + 10 + |kind|] == ']';
    hide MatchEnd, Sane;
  }

  lemma MatchBeside(a: string, kind: string, b: string, p: nat, i: nat)
    requires |kind| <= LONGEST_KIND && p < |PATTERNS| && MatchEnd(PATTERNS[p], a + Marker(kind) + b, i).Some?
    ensures HasMatch(a) || HasMatch(b)
  {
    var s, n := a + Marker(kind) + b, |a| + |Marker(kind)|;
    MatchBesideMarker(a, kind, b, p, i);
    var e := MatchEnd(PATTERNS[p], s, i).value;
    if e <= |a| {
      assert a[i..e] == s[i..e];
      MatchMoves(s, p, i, a, i);
    } else {
      assert b[i - n..e - n] == s[i..e];
      MatchMoves(s, p, i, b, i - n);
    }
  }

  lemma PartMatches(a: string, s: string, b: string)
    requires HasMatch(s)
    ensures HasMatch(a + s + b)
  {
    var p, i: nat :| 0 <= p < |PATTERNS| && MatchEnd(PATTERNS[p], s, i).Some?;
    PatternsAreSane(p);
    MatchShape(PATTERNS[p], PATTERNS[p].prefixes, s, i);
    var e, t := MatchEnd(PATTERNS[p], s, i).value, a + s + b;
    assert t[|a| + i..|a| + e] == s[i..e];
    MatchMoves(s, p, i, t, |a| + i);
  }

  lemma HasMatchAround(a: string, kind: string, b: string)
    requires |kind| <= LONGEST_KIND
    ensures HasMatch(a + Marker(kind) + b) <==> HasMatch(a) || HasMatch(b)
  {
    var s := a + Marker(kind) + b;
    if HasMatch(s) {
      var p, i: nat :| 0 <= p < |PATTERNS| && MatchEnd(PATTERNS[p], s, i).Some?;
      MatchBeside(a, kind, b, p, i);
    }
    hide HasMatch, Marker;
    if HasMatch(a) {
      PartMatches("", a, Marker(kind) + b);
      assert "" + a + (Marker(kind) + b) == s;
    }
    if HasMatch(b) {
      PartMatches(a + Marker(kind), b, "");
      assert s + "" == s;
    }
  }

  // ---- The stretches redact copies ----

  /** What redact copies before hit i, or behind the last one. */
  function Written(text: string, hits: seq<Hit>, i: nat): string
    requires i <= |hits|
  {
    Slice(text, AfterHits(text, hits[..i]).cursor, if i < |hits| then hits[i].start else |text|)
  }

  ghost predicate WritesSecret(text: string, hits: seq<Hit>) {
    exists i :: 0 <= i <= |hits| && HasMatch(Written(text, hits, i))
  }

  ghost predicate EarlierMatch(text: string, hits: seq<Hit>) {
    exists i :: 0 <= i < |hits| && HasMatch(Written(text, hits, i))
  }

  lemma EarlierMatchStep(text: string, hits: seq<Hit>, h: Hit)
    ensures EarlierMatch(text, hits + [h]) <==>
              EarlierMatch(text, hits) || HasMatch(Slice(text, AfterHits(text, hits).cursor, h.start))
  {
    var more := hits + [h];
    forall i | 0 <= i < |hits| ensures Written(text, more, i) == Written(text, hits, i) {
      assert more[..i] == hits[..i];
    }
    assert Written(text, more, |hits|) == Slice(text, AfterHits(text, hits).cursor, h.start) by {
      assert more[..|hits|] == hits;
    }
    hide HasMatch, Written;
    if EarlierMatch(text, hits) {
      var i :| 0 <= i < |hits| && HasMatch(Written(text, hits, i));
      assert HasMatch(Written(text, more, i));
    }
  }

  lemma {:induction false} FlushedMatchIff(text: string, hits: seq<Hit>, c: nat)
    requires AllInText(hits, text)
    ensures HasMatch(Flushed(text, hits, c)) <==>
              EarlierMatch(text, hits) || HasMatch(Slice(text, AfterHits(text, hits).cursor, c))
    decreases |hits|
  {
    if hits == [] {
      assert "" + Slice(text, 0, c) == Slice(text, 0, c);
    } else {
      var init, h := hits[..|hits| - 1], hits[|hits| - 1];
      assert hits == init + [h] && InText(h, text);
      assert AfterHits(text, hits).cursor == h.end;
      assert Flushed(text, hits, c) == Flushed(text, init, h.start) + Marker(h.kind) + Slice(text, h.end, c);
      hide *;
      FlushedMatchIff(text, init, h.start);
      HasMatchAround(Flushed(text, init, h.start), h.kind, Slice(text, h.end, c));
      EarlierMatchStep(text, init, h);
    }
  }

  /** The redacted text has a match exactly when one of the copied stretches has. */
  lemma RedactedMatchIff(text: string, hits: seq<Hit>)
    requires AllInText(hits, text)
    ensures HasMatch(Redacted(text, hits)) <==> WritesSecret(text, hits)
  {
    FlushedMatchIff(text, hits, |text|);
    assert Written(text, hits, |hits|) == Slice(text, AfterHits(text, hits).cursor, |text|) by {
      assert hits[..|hits|] == hits;
    }
    hide HasMatch, Written, AfterHits, Slice, AllInText, Flushed;
    if WritesSecret(text, hits) {
      var i :| 0 <= i <= |hits| && HasMatch(Written(text, hits, i));
      if i < |hits| { assert EarlierMatch(text, hits); }
    }
  }

  /** A second scan finds something exactly when a copied stretch has a match. */
  lemma RedactedHasNoSecretIff(text: string)
    ensures Scanned(Redacted(text, Scanned(text))) == [] <==> !WritesSecret(text, Scanned(text))
  {
    ScanSound(text);
    RedactedMatchIff(text, Scanned(text));
    NoHitIffNoMatch(Redacted(text, Scanned(text)));
    hide Scanned, Redacted, WritesSecret, MatchEnd;
  }

  lemma {:induction false} FirstMarker(text: string, hits: seq<Hit>, c: nat)
    requires AllInText(hits, text) && hits != []
    ensures var f := Flushed(text, hits, c); hits[0].start < |f| && f[hits[0].start] == '['
  {
    var init := hits[..|hits| - 1];
    assert InText(hits[0], text) && InText(hits[|hits| - 1], text);
    if init == [] {
      assert AfterHits(text, init) == Progress("", 0);
    } else {
      FirstMarker(text, init, hits[|hits| - 1].start);
    }
  }

  lemma MatchBegins(text: string, p: nat, i: nat)
    requires p < |PATTERNS| && MatchEnd(PATTERNS[p], text, i).Some?
    ensures i < |text| && text[i] != '['
  {
    PatternsAreSane(p);
    MatchShape(PATTERNS[p], PATTERNS[p].prefixes, text, i);
    hide MatchEnd, Sane;
    assert TokenChar(text[i]);
  }

  lemma HitBegins(text: string)
    requires Scanned(text) != []
    ensures Scanned(text)[0].start < |text| && text[Scanned(text)[0].start] != '['
  {
    ScannedAreMatches(text, 0);
    hide Scanned, MatchEnd;
    var p :| 0 <= p < |PATTERNS| && MatchEnd(PATTERNS[p], text, Scanned(text)[0].start).Some?;
    MatchBegins(text, p, Scanned(text)[0].start);
  }

  lemma MarkerComesFirst(text: string)
    requires Scanned(text) != []
    ensures var out := Redacted(text, Scanned(text)); var i := Scanned(text)[0].start;
            i < |out| && out[i] == '['
  {
    ScanSound(text);
    FirstMarker(text, Scanned(text), |text|);
    hide Scanned, Flushed, AllInText;
  }

  /** Where something is found, redaction changes the text. */
  lemma RedactChangesIff(text: string)
    ensures Redacted(text, Scanned(text)) == text <==> Scanned(text) == []
  {
    if Scanned(text) != [] {
      hide *;
      HitBegins(text);
      MarkerComesFirst(text);
    }
  }

  /** Redacting twice is redacting once exactly when no copied stretch has a match. */
  lemma RedactIsIdempotentIff(text: string)
    ensures var out := Redacted(text, Scanned(text));
            Redacted(out, Scanned(out)) == out <==> !WritesSecret(text, Scanned(text))
  {
    RedactedHasNoSecretIff(text);
    RedactChangesIff(Redacted(text, Scanned(text)));
    hide Scanned, Redacted, WritesSecret;
  }

  // ---- Redaction proper writes no secret ----

  lemma CursorBefore(text: string, hits: seq<Hit>, i: nat)
    requires i <= |hits|
    ensures AfterHits(text, hits[..i]).cursor == if i == 0 then 0 else hits[i - 1].end
  {
    if i > 0 { assert hits[..i][|hits[..i]| - 1] == hits[i - 1]; }
  }

  lemma OpenBehind(hits: seq<Hit>, i: nat, c: nat)
    requires StartsOrdered(hits) && i <= |hits| && forall k :: i <= k < |hits| ==> hits[k].start > c
    requires i > 0 ==> hits[i - 1].start < hits[i - 1].end <= c
    ensures Reopened(hits, c)
  {
    if i == 0 {
      var j := LastStartedAt(hits, c);
      hide LastStarted;
    } else {
      LastStartedIs(hits, c, i - 1);
      hide LastStarted;
    }
  }

  lemma StartsBehind(hits: seq<Hit>, i: nat, c: nat)
    requires StartsOrdered(hits) && i < |hits| && c < hits[i].start
    ensures forall k :: i <= k < |hits| ==> hits[k].start > c
  {}

  /** What is copied is open to redact. */
  lemma WrittenIsOpen(text: string, hits: seq<Hit>, i: nat, c: nat)
    requires AllInText(hits, text) && StartsOrdered(hits) && i <= |hits|
    requires AfterHits(text, hits[..i]).cursor <= c < if i < |hits| then hits[i].start else |text|
    ensures Reopened(hits, c)
  {
    if i > 0 { assert InText(hits[i - 1], text); }
    hide *;
    CursorBefore(text, hits, i);
    if i < |hits| { StartsBehind(hits, i, c); }
    OpenBehind(hits, i, c);
  }

  /** When redact redacts, nothing it writes looks like a secret. */
  lemma RedactedHasNoSecret(text: string)
    requires NeverReopens(Scanned(text))
    ensures !WritesSecret(text, Scanned(text))
  {
    var hits := Scanned(text);
    ScanSound(text);
    forall i | 0 <= i <= |hits| ensures !HasMatch(Written(text, hits, i)) {
      var w := Written(text, hits, i);
      forall p, j: nat | 0 <= p < |PATTERNS| ensures MatchEnd(PATTERNS[p], w, j).None? {
        if MatchEnd(PATTERNS[p], w, j).Some? { WrittenMatchReopens(text, i, p, j); }
      }
    }
  }

  lemma SliceOfSlice(text: string, from: nat, to: nat, j: nat, e: nat)
    requires from <= to <= |text| && j <= e <= to - from
    ensures text[from..to][j..e] == text[from + j..from + e]
  {
    var part, whole := text[from..to][j..e], text[from + j..from + e];
    forall k | 0 <= k < e - j ensures part[k] == whole[k] {
      assert part[k] == text[from..to][j + k] == text[from + (j + k)];
    }
  }

  lemma SliceMatch(text: string, from: nat, to: nat, p: nat, j: nat)
    requires p < |PATTERNS| && MatchEnd(PATTERNS[p], Slice(text, from, to), j).Some?
    ensures from + j < to <= |text| && MatchEnd(PATTERNS[p], text, from + j).Some?
  {
    var w := Slice(text, from, to);
    PatternsAreSane(p);
    MatchShape(PATTERNS[p], PATTERNS[p].prefixes, w, j);
    var e := MatchEnd(PATTERNS[p], w, j).value;
    assert j < e <= |w|;
    hide MatchEnd, Sane;
    assert from < to <= |text| && w == text[from..to];
    SliceOfSlice(text, from, to, j, e);
    hide *;
    MatchMoves(w, p, j, text, from + j);
  }

  lemma WrittenIsSlice(text: string, hits: seq<Hit>, i: nat)
    requires i <= |hits|
    ensures Written(text, hits, i)
         == Slice(text, AfterHits(text, hits[..i]).cursor, if i < |hits| then hits[i].start else |text|)
  {
    hide AfterHits, Slice;
  }

  lemma WrittenMatch(text: string, hits: seq<Hit>, i: nat, p: nat, j: nat)
    requires i <= |hits| && p < |PATTERNS| && MatchEnd(PATTERNS[p], Written(text, hits, i), j).Some?
    ensures var from := AfterHits(text, hits[..i]).cursor;
            && from + j < (if i < |hits| then hits[i].start else |text|) && from + j < |text|
            && MatchEnd(PATTERNS[p], text, from + j).Some?
  {
    hide *;
    WrittenIsSlice(text, hits, i);
    SliceMatch(text, AfterHits(text, hits[..i]).cursor, if i < |hits| then hits[i].start else |text|, p, j);
  }

  lemma WrittenMatchReopens(text: string, i: nat, p: nat, j: nat)
    requires i <= |Scanned(text)| && p < |PATTERNS| && MatchEnd(PATTERNS[p], Written(text, Scanned(text), i), j).Some?
    ensures !NeverReopens(Scanned(text))
  {
    hide *;
    var hits := Scanned(text);
    WrittenMatch(text, hits, i, p, j);
    var c := AfterHits(text, hits[..i]).cursor + j;
    ScanSound(text);
    ScanComplete(text, p, c);
    WrittenIsOpen(text, hits, i, c);
    LeaksIf(text, hits, c);
    LeakMeansReopens(text, hits, c);
  }

  lemma LeaksIf(text: string, hits: seq<Hit>, c: nat)
    requires c < |text| && Covered(hits, c) && Reopened(hits, c)
    ensures Leaks(text, hits, c)
  {}
}
