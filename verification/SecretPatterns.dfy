/**
 * packages/coworker-utils/src/secret-scanner.ts, lines 17-44: the four patterns, how a global
 * regular expression walks over a text, and the hits of a scan.
 */
module SecretPatterns {
  import opened StableSort
  import opened Wrappers

  datatype Alphabet = Alnum | AlnumDash | UpperDigit

  predicate InAlphabet(a: Alphabet, c: char) {
    || '0' <= c <= '9'
    || 'A' <= c <= 'Z'
    || (a != UpperDigit && 'a' <= c <= 'z')
    || (a == AlnumDash && (c == '_' || c == '-'))
  }

  /** One of the prefixes, tried in order, then between least and most characters of the alphabet. */
  datatype Pattern = Pattern(kind: string, prefixes: seq<string>, alphabet: Alphabet, least: nat, most: Option<nat>)

  const ANTHROPIC := Pattern("anthropic_api_key", ["sk-ant-api03-"], AlnumDash, 40, None)
  const OPENAI := Pattern("openai_api_key", ["sk-proj-", "sk-"], Alnum, 40, None)
  const AWS := Pattern("aws_access_key_id", ["AKIA"], UpperDigit, 16, Some(16))
  const GITHUB := Pattern("github_pat", ["ghp_", "gho_", "ghu_", "ghs_"], Alnum, 36, None)

  const PATTERNS: seq<Pattern> := [ANTHROPIC, OPENAI, AWS, GITHUB]

  /** The first index from i on that is outside the alphabet. */
  function RunEnd(a: Alphabet, text: string, i: nat): (r: nat)
    requires i <= |text|
    ensures i <= r <= |text| && forall j :: i <= j < r ==> InAlphabet(a, text[j])
    decreases |text| - i
  {
    if i < |text| && InAlphabet(a, text[i]) then RunEnd(a, text, i + 1) else i
  }

  lemma {:induction false} RunReaches(a: Alphabet, text: string, i: nat, e: nat)
    requires i <= e <= |text| && forall j :: i <= j < e ==> InAlphabet(a, text[j])
    ensures RunEnd(a, text, i) >= e
    decreases e - i
  {
    if i < e { RunReaches(a, text, i + 1, e); }
  }

  function EndWith(p: Pattern, prefix: string, text: string, i: nat): Option<nat> {
    if i + |prefix| > |text| || text[i..i + |prefix|] != prefix then None
    else
      var b := i + |prefix|;
      var r := RunEnd(p.alphabet, text, b);
      if r - b < p.least then None
      else if p.most.Some? && p.most.value < r - b then Some(b + p.most.value)
      else Some(r)
  }

  function FirstEnd(p: Pattern, prefixes: seq<string>, text: string, i: nat): Option<nat> {
    if prefixes == [] then None
    else
      var e := EndWith(p, prefixes[0], text, i);
      if e.Some? then e else FirstEnd(p, prefixes[1..], text, i)
  }

  /** Where the match of p that starts at i ends. */
  function MatchEnd(p: Pattern, text: string, i: nat): Option<nat> {
    FirstEnd(p, p.prefixes, text, i)
  }

  // ---- What a match looks like ----

  /** The characters a secret of any kind is made of. */
  predicate TokenChar(c: char) {
    InAlphabet(AlnumDash, c)
  }

  ghost predicate TokenPrefixes(prefixes: seq<string>) {
    forall i, j :: 0 <= i < |prefixes| && 0 <= j < |prefixes[i]| ==> TokenChar(prefixes[i][j])
  }

  const SHORTEST := 20
  const LONGEST_KIND := 17

  ghost predicate Sane(p: Pattern) {
    && TokenPrefixes(p.prefixes)
    && (forall i :: 0 <= i < |p.prefixes| ==> |p.prefixes[i]| + p.least >= SHORTEST)
    && (p.most.Some? ==> p.most.value >= p.least)
    && |p.kind| <= LONGEST_KIND
  }

  lemma PatternsAreSane(i: nat)
    requires i < |PATTERNS|
    ensures Sane(PATTERNS[i])
  {}

  /** A match is long and has no character from outside the secret alphabets. */
  lemma {:induction false} MatchShape(p: Pattern, prefixes: seq<string>, text: string, i: nat)
    requires Sane(p) && TokenPrefixes(prefixes) && FirstEnd(p, prefixes, text, i).Some?
    requires forall k :: 0 <= k < |prefixes| ==> |prefixes[k]| + p.least >= SHORTEST
    ensures var e := FirstEnd(p, prefixes, text, i).value;
            i + SHORTEST <= e <= |text| && forall j :: i <= j < e ==> TokenChar(text[j])
    decreases |prefixes|
  {
    var prefix := prefixes[0];
    if EndWith(p, prefix, text, i).Some? {
      forall j | i <= j < i + |prefix| ensures TokenChar(text[j]) {
        assert text[j] == text[i..i + |prefix|][j - i];
      }
    } else {
      MatchShape(p, prefixes[1..], text, i);
    }
  }

  /** A match found in one text is a match wherever the same characters stand. */
  lemma {:induction false} MatchTransfers(p: Pattern, prefixes: seq<string>, s: string, k: nat, text: string, c: nat)
    requires Sane(p) && FirstEnd(p, prefixes, s, k).Some?
    requires var e := FirstEnd(p, prefixes, s, k).value;
             k <= e <= |s| && c + (e - k) <= |text| && text[c..c + (e - k)] == s[k..e]
    ensures FirstEnd(p, prefixes, text, c).Some?
    decreases |prefixes|
  {
    var prefix := prefixes[0];
    if EndWith(p, prefix, s, k).Some? {
      EndTransfers(p, prefix, s, k, text, c);
    } else {
      MatchTransfers(p, prefixes[1..], s, k, text, c);
    }
  }

  lemma EndTransfers(p: Pattern, prefix: string, s: string, k: nat, text: string, c: nat)
    requires Sane(p) && EndWith(p, prefix, s, k).Some?
    requires var e := EndWith(p, prefix, s, k).value;
             k <= e <= |s| && c + (e - k) <= |text| && text[c..c + (e - k)] == s[k..e]
    ensures EndWith(p, prefix, text, c).Some?
  {
    var e, n := EndWith(p, prefix, s, k).value, |prefix|;
    assert s[k..k + n] == s[k..e][..n] && text[c..c + n] == text[c..c + (e - k)][..n];
    forall j | c + n <= j < c + (e - k) ensures InAlphabet(p.alphabet, text[j]) {
      assert text[j] == text[c..c + (e - k)][j - c] == s[k..e][j - c] == s[k + (j - c)];
    }
    RunReaches(p.alphabet, text, c + n, c + (e - k));
  }

  // ---- Scanning ----

  datatype Hit = Hit(kind: string, start: nat, end: nat, preview: string)

  function HitAt(p: Pattern, text: string, i: nat): Hit
    requires Sane(p) && MatchEnd(p, text, i).Some?
  {
    MatchShape(p, p.prefixes, text, i);
    var e := MatchEnd(p, text, i).value;
    Hit(p.kind, i, e, text[i..e][..8] + "...")
  }

  /** regex.exec: the leftmost match at or after from. */
  function Exec(p: Pattern, text: string, from: nat): (h: Option<Hit>)
    requires Sane(p)
    ensures h.Some? ==> MatchEnd(p, text, h.value.start).Some? && h.value == HitAt(p, text, h.value.start)
    ensures h.Some? ==> from <= h.value.start < h.value.end <= |text|
    ensures var stop := if h.Some? then h.value.start else |text|;
            forall i :: from <= i < stop ==> MatchEnd(p, text, i).None?
    decreases |text| - from
  {
    if from >= |text| then None
    else if MatchEnd(p, text, from).Some? then
      MatchShape(p, p.prefixes, text, from);
      Some(HitAt(p, text, from))
    else Exec(p, text, from + 1)
  }

  function HitsOf(p: Pattern, text: string, from: nat): seq<Hit>
    requires Sane(p)
    decreases |text| - from
  {
    var h := Exec(p, text, from);
    if h.None? then [] else [h.value] + HitsOf(p, text, h.value.end)
  }

  /** The hits of the first n patterns, pattern after pattern. */
  function Found(text: string, n: nat): seq<Hit>
    requires n <= |PATTERNS|
  {
    if n == 0 then []
    else
      PatternsAreSane(n - 1);
      Found(text, n - 1) + HitsOf(PATTERNS[n - 1], text, 0)
  }

  /** A hit is a stretch of the text named after a pattern. */
  predicate InText(h: Hit, text: string) {
    && h.start < h.end <= |text|
    && |h.kind| <= LONGEST_KIND
    && h.preview == text[h.start..h.end][..if h.end - h.start < 8 then h.end - h.start else 8] + "..."
  }

  ghost predicate AllInText(hits: seq<Hit>, text: string) {
    forall i :: 0 <= i < |hits| ==> InText(hits[i], text)
  }

  predicate Covers(h: Hit, c: nat) {
    h.start <= c < h.end
  }

  predicate Covered(hits: seq<Hit>, c: nat) {
    exists i :: 0 <= i < |hits| && Covers(hits[i], c)
  }

  lemma {:induction false} HitsOfComplete(p: Pattern, text: string, from: nat, i: nat)
    requires Sane(p) && from <= i && MatchEnd(p, text, i).Some?
    ensures Covered(HitsOf(p, text, from), i)
    decreases |text| - from
  {
    MatchShape(p, p.prefixes, text, i);
    var h := Exec(p, text, from);
    var hits := HitsOf(p, text, from);
    if i < h.value.end {
      assert Covers(hits[0], i);
    } else {
      HitsOfComplete(p, text, h.value.end, i);
      var j :| 0 <= j < |HitsOf(p, text, h.value.end)| && Covers(HitsOf(p, text, h.value.end)[j], i);
      assert Covers(hits[j + 1], i);
    }
  }

  lemma {:induction false} HitsOfInText(p: Pattern, text: string, from: nat)
    requires Sane(p)
    ensures AllInText(HitsOf(p, text, from), text)
    ensures forall i :: 0 <= i < |HitsOf(p, text, from)| ==> from <= HitsOf(p, text, from)[i].start
    ensures forall i, j :: 0 <= i < j < |HitsOf(p, text, from)| ==>
              HitsOf(p, text, from)[i].end <= HitsOf(p, text, from)[j].start
    decreases |text| - from
  {
    var h := Exec(p, text, from);
    if h.Some? {
      MatchShape(p, p.prefixes, text, h.value.start);
      HitsOfInText(p, text, h.value.end);
    }
  }

  /** Some pattern matches at i. */
  ghost predicate MatchStarts(text: string, i: nat) {
    exists p :: 0 <= p < |PATTERNS| && MatchEnd(PATTERNS[p], text, i).Some?
  }

  lemma {:induction false} HitsOfAreMatches(p: Pattern, text: string, from: nat)
    requires Sane(p)
    ensures forall i :: 0 <= i < |HitsOf(p, text, from)| ==> MatchEnd(p, text, HitsOf(p, text, from)[i].start).Some?
    decreases |text| - from
  {
    var h := Exec(p, text, from);
    if h.Some? { HitsOfAreMatches(p, text, h.value.end); }
  }

  lemma {:induction false} FoundAreMatches(text: string, n: nat)
    requires n <= |PATTERNS|
    ensures forall i :: 0 <= i < |Found(text, n)| ==> MatchStarts(text, Found(text, n)[i].start)
  {
    if n > 0 {
      PatternsAreSane(n - 1);
      FoundAreMatches(text, n - 1);
      HitsOfAreMatches(PATTERNS[n - 1], text, 0);
      hide MatchEnd, HitsOf;
    }
  }

  lemma {:induction false} FoundInText(text: string, n: nat)
    requires n <= |PATTERNS|
    ensures AllInText(Found(text, n), text)
  {
    if n > 0 {
      PatternsAreSane(n - 1);
      FoundInText(text, n - 1);
      HitsOfInText(PATTERNS[n - 1], text, 0);
    }
  }

  /** Wherever a pattern matches, some hit covers the first character of the match. */
  lemma {:induction false} FoundComplete(text: string, n: nat, p: nat, i: nat)
    requires p < n <= |PATTERNS| && MatchEnd(PATTERNS[p], text, i).Some?
    ensures Covered(Found(text, n), i)
  {
    PatternsAreSane(n - 1);
    var before, hits := Found(text, n - 1), HitsOf(PATTERNS[n - 1], text, 0);
    if p == n - 1 {
      HitsOfComplete(PATTERNS[p], text, 0, i);
      var j :| 0 <= j < |hits| && Covers(hits[j], i);
      assert Found(text, n)[|before| + j] == hits[j];
    } else {
      FoundComplete(text, n - 1, p, i);
      var j :| 0 <= j < |before| && Covers(before[j], i);
      assert Found(text, n)[j] == before[j];
    }
  }

  // ---- The sort by start ----

  predicate StartsAfter(a: Hit, b: Hit) {
    a.start > b.start
  }

  ghost predicate StartsOrdered(hits: seq<Hit>) {
    forall i, j :: 0 <= i < j < |hits| ==> hits[i].start <= hits[j].start
  }

  /** All hits of all patterns in order of their starts. */
  function Scanned(text: string): seq<Hit> {
    Sort(Found(text, |PATTERNS|), StartsAfter)
  }

  lemma ScanComplete(text: string, p: nat, i: nat)
    requires p < |PATTERNS| && MatchEnd(PATTERNS[p], text, i).Some?
    ensures Covered(Scanned(text), i)
  {
    FoundComplete(text, |PATTERNS|, p, i);
    var found := Found(text, |PATTERNS|);
    var j :| 0 <= j < |found| && Covers(found[j], i);
    SortKeeps(found, StartsAfter, found[j]);
    var k :| 0 <= k < |Scanned(text)| && Scanned(text)[k] == found[j];
  }

  lemma ScanSound(text: string)
    ensures AllInText(Scanned(text), text) && StartsOrdered(Scanned(text))
  {
    var found := Found(text, |PATTERNS|);
    FoundInText(text, |PATTERNS|);
    SortIsStable(found, StartsAfter);
    assert forall i, j :: 0 <= i < j < |Scanned(text)| ==> !StartsAfter(Scanned(text)[i], Scanned(text)[j]);
    forall i | 0 <= i < |Scanned(text)| ensures InText(Scanned(text)[i], text) {
      SortKeeps(found, StartsAfter, Scanned(text)[i]);
    }
  }

  /** Every hit starts where some pattern matches. */
  lemma ScannedAreMatches(text: string, i: nat)
    requires i < |Scanned(text)|
    ensures MatchStarts(text, Scanned(text)[i].start)
  {
    var found := Found(text, |PATTERNS|);
    FoundAreMatches(text, |PATTERNS|);
    ScanSound(text);
    SortIsStable(found, StartsAfter);
    SortKeeps(found, StartsAfter, Scanned(text)[i]);
    hide MatchStarts, Found;
  }

  lemma {:induction false} FoundNothing(text: string, n: nat)
    requires n <= |PATTERNS|
    requires forall p, i: nat :: 0 <= p < n ==> MatchEnd(PATTERNS[p], text, i).None?
    ensures Found(text, n) == []
  {
    if n > 0 {
      PatternsAreSane(n - 1);
      FoundNothing(text, n - 1);
    }
  }

  /** Nothing is found exactly where nothing matches. */
  lemma NoHitIffNoMatch(text: string)
    ensures Scanned(text) == [] <==> forall p, i: nat :: 0 <= p < |PATTERNS| ==> MatchEnd(PATTERNS[p], text, i).None?
  {
    if Scanned(text) == [] {
      forall p, i: nat | 0 <= p < |PATTERNS| ensures MatchEnd(PATTERNS[p], text, i).None? {
        if MatchEnd(PATTERNS[p], text, i).Some? { ScanComplete(text, p, i); }
      }
    }
    if forall p, i: nat :: 0 <= p < |PATTERNS| ==> MatchEnd(PATTERNS[p], text, i).None? {
      FoundNothing(text, |PATTERNS|);
    }
  }
}
