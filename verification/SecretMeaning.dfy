/** What the scan finds and redact writes, told by the texts of secrets themselves. */
module SecretMeaning {
  import opened Wrappers
  import opened SecretPatterns
  import opened SecretScanner
  import opened StableSort

  predicate Word(c: char) {
    '0' <= c <= '9' || 'A' <= c <= 'Z' || 'a' <= c <= 'z'
  }

  /** From position n on, letters, digits and, if allowed, underscores and dashes. */
  predicate WordsFrom(s: string, n: nat, dashes: bool) {
    forall i :: n <= i < |s| ==> Word(s[i]) || (dashes && (s[i] == '_' || s[i] == '-'))
  }

  predicate UpperFrom(s: string, n: nat) {
    forall i :: n <= i < |s| ==> '0' <= s[i] <= '9' || 'A' <= s[i] <= 'Z'
  }

  /** s as a whole is a secret of the kind. */
  predicate IsSecret(kind: string, s: string) {
    || (kind == "anthropic_api_key" && |s| >= 53 && s[..13] == "sk-ant-api03-" && WordsFrom(s, 13, true))
    || (kind == "openai_api_key" && |s| >= 48 && s[..8] == "sk-proj-" && WordsFrom(s, 8, false))
    || (kind == "openai_api_key" && |s| >= 43 && s[..3] == "sk-" && WordsFrom(s, 3, false))
    || (kind == "aws_access_key_id" && |s| == 20 && s[..4] == "AKIA" && UpperFrom(s, 4))
    || (kind == "github_pat" && |s| >= 40 && s[..4] in {"ghp_", "gho_", "ghu_", "ghs_"} && WordsFrom(s, 4, false))
  }

  // ---- One prefix ----

  /** s is the prefix and then enough of the alphabet, no more than the most. */
  predicate Fits(p: Pattern, prefix: string, s: string) {
    && |prefix| + p.least <= |s| && s[..|prefix|] == prefix
    && (p.most.Some? ==> |s| <= |prefix| + p.most.value)
    && forall i :: |prefix| <= i < |s| ==> InAlphabet(p.alphabet, s[i])
  }

  lemma EndFits(p: Pattern, prefix: string, text: string, i: nat)
    requires Sane(p) && EndWith(p, prefix, text, i).Some?
    ensures var e := EndWith(p, prefix, text, i).value;
            i <= e <= |text| && Fits(p, prefix, text[i..e])
  {
    var e, n := EndWith(p, prefix, text, i).value, |prefix|;
    assert text[i..e][..n] == text[i..i + n];
  }

  /** Whatever fits here, the match is at least as long. */
  lemma FitEnds(p: Pattern, prefix: string, text: string, i: nat, e: nat)
    requires Sane(p) && i <= e <= |text| && Fits(p, prefix, text[i..e])
    ensures EndWith(p, prefix, text, i).Some? && EndWith(p, prefix, text, i).value >= e
  {
    var n := |prefix|;
    assert text[i..i + n] == text[i..e][..n];
    forall j | i + n <= j < e ensures InAlphabet(p.alphabet, text[j]) { assert text[j] == text[i..e][j - i]; }
    RunReaches(p.alphabet, text, i + n, e);
  }

  // ---- The prefixes in turn ----

  lemma {:induction false} FirstFits(p: Pattern, prefixes: seq<string>, text: string, i: nat) returns (k: nat)
    requires Sane(p) && FirstEnd(p, prefixes, text, i).Some?
    ensures k < |prefixes| && EndWith(p, prefixes[k], text, i) == FirstEnd(p, prefixes, text, i)
    decreases |prefixes|
  {
    k := 0;
    if EndWith(p, prefixes[0], text, i).None? {
      k := FirstFits(p, prefixes[1..], text, i);
      k := k + 1;
    }
  }

  lemma {:induction false} AnyEnds(p: Pattern, prefixes: seq<string>, text: string, i: nat, k: nat)
    requires k < |prefixes| && EndWith(p, prefixes[k], text, i).Some?
    ensures FirstEnd(p, prefixes, text, i).Some?
    decreases |prefixes|
  {
    if k > 0 { AnyEnds(p, prefixes[1..], text, i, k - 1); }
  }

  // ---- The four patterns ----

  lemma AlphabetMeans(c: char)
    ensures InAlphabet(Alnum, c) <==> Word(c)
    ensures InAlphabet(AlnumDash, c) <==> Word(c) || c == '_' || c == '-'
    ensures InAlphabet(UpperDigit, c) <==> '0' <= c <= '9' || 'A' <= c <= 'Z'
  {}

  /** A secret of a pattern's kind is what fits one of its prefixes. */
  lemma SecretFits(n: nat, s: string)
    requires n < |PATTERNS|
    ensures IsSecret(PATTERNS[n].kind, s) <==>
              exists k :: 0 <= k < |PATTERNS[n].prefixes| && Fits(PATTERNS[n], PATTERNS[n].prefixes[k], s)
  {
    var p := PATTERNS[n];
    forall c: char ensures (InAlphabet(Alnum, c) <==> Word(c))
      && (InAlphabet(AlnumDash, c) <==> Word(c) || c == '_' || c == '-')
      && (InAlphabet(UpperDigit, c) <==> '0' <= c <= '9' || 'A' <= c <= 'Z') { AlphabetMeans(c); }
    hide InAlphabet, Word;
    if n == 0 { assert p.prefixes[0] == "sk-ant-api03-"; }
    if n == 1 { assert p.prefixes[0] == "sk-proj-" && p.prefixes[1] == "sk-"; }
    if n == 2 { assert p.prefixes[0] == "AKIA"; }
    if n == 3 {
      assert p.prefixes[0] == "ghp_" && p.prefixes[1] == "gho_" && p.prefixes[2] == "ghu_" && p.prefixes[3] == "ghs_";
    }
  }

  lemma DashAt(s: string)
    ensures |s| >= 8 && s[..8] == "sk-proj-" ==> s[7] == '-'
  {
    assert |s| >= 8 ==> s[..8][7] == s[7];
  }

  /** No two prefixes of a pattern fit at one place. */
  lemma PrefixesExclude(n: nat, text: string, i: nat, e: nat, f: nat, k: nat, l: nat)
    requires n < |PATTERNS| && k < |PATTERNS[n].prefixes| && l < |PATTERNS[n].prefixes|
    requires i <= e <= |text| && i <= f <= |text|
    requires Fits(PATTERNS[n], PATTERNS[n].prefixes[k], text[i..e])
    requires Fits(PATTERNS[n], PATTERNS[n].prefixes[l], text[i..f])
    ensures k == l
  {
    var s, t := text[i..e], text[i..f];
    assert forall j :: 0 <= j < |s| && j < |t| ==> s[j] == text[i + j] == t[j];
    DashAt(s);
    DashAt(t);
    assert n == 1 && 7 < |s| && 7 < |t| ==> s[7] == t[7];
    if n == 3 {
      var a, b := PATTERNS[3].prefixes[k], PATTERNS[3].prefixes[l];
      assert s[..4] == a && t[..4] == b;
      assert a[2] == s[..4][2] == s[2] == t[2] == t[..4][2] == b[2];
    }
  }

  /** The match of a pattern is the longest secret of its kind that begins there, if one does. */
  lemma MatchMeans(n: nat, text: string, i: nat)
    requires n < |PATTERNS|
    ensures MatchEnd(PATTERNS[n], text, i).Some? ==>
              var e := MatchEnd(PATTERNS[n], text, i).value;
              && i < e <= |text| && IsSecret(PATTERNS[n].kind, text[i..e])
              && forall f :: e < f <= |text| ==> !IsSecret(PATTERNS[n].kind, text[i..f])
    ensures MatchEnd(PATTERNS[n], text, i).None? ==>
              forall f :: i <= f <= |text| ==> !IsSecret(PATTERNS[n].kind, text[i..f])
  {
    var p := PATTERNS[n];
    PatternsAreSane(n);
    forall f | i <= f <= |text| && IsSecret(p.kind, text[i..f])
      ensures MatchEnd(p, text, i).Some? && f <= MatchEnd(p, text, i).value
    {
      LongestMatch(n, text, i, f);
    }
    if MatchEnd(p, text, i).Some? { MatchIsSecret(n, text, i); }
    hide IsSecret, MatchEnd, Sane;
  }

  lemma LongestMatch(n: nat, text: string, i: nat, f: nat)
    requires n < |PATTERNS| && i <= f <= |text| && IsSecret(PATTERNS[n].kind, text[i..f])
    ensures MatchEnd(PATTERNS[n], text, i).Some? && f <= MatchEnd(PATTERNS[n], text, i).value
  {
    var p := PATTERNS[n];
    PatternsAreSane(n);
    SecretFits(n, text[i..f]);
    hide IsSecret, Sane, EndWith, FirstEnd, Fits;
    var k: nat :| k < |p.prefixes| && Fits(p, p.prefixes[k], text[i..f]);
    FitEnds(p, p.prefixes[k], text, i, f);
    AnyEnds(p, p.prefixes, text, i, k);
    var l := FirstFits(p, p.prefixes, text, i);
    EndFits(p, p.prefixes[l], text, i);
    PrefixesExclude(n, text, i, f, EndWith(p, p.prefixes[l], text, i).value, k, l);
  }

  lemma MatchIsSecret(n: nat, text: string, i: nat)
    requires n < |PATTERNS| && MatchEnd(PATTERNS[n], text, i).Some?
    ensures var e := MatchEnd(PATTERNS[n], text, i).value; i < e <= |text| && IsSecret(PATTERNS[n].kind, text[i..e])
  {
    var p := PATTERNS[n];
    PatternsAreSane(n);
    MatchShape(p, p.prefixes, text, i);
    var l := FirstFits(p, p.prefixes, text, i);
    EndFits(p, p.prefixes[l], text, i);
    SecretFits(n, text[i..MatchEnd(p, text, i).value]);
    hide IsSecret, Sane, EndWith, FirstEnd, Fits;
  }

  // ---- The hits ----

  /** A hit is the match of its pattern at its start. */
  ghost predicate IsHit(text: string, h: Hit) {
    exists n :: 0 <= n < |PATTERNS| && HitOf(text, h, n)
  }

  ghost predicate HitOf(text: string, h: Hit, n: nat)
    requires n < |PATTERNS|
  {
    Sane(PATTERNS[n]) && MatchEnd(PATTERNS[n], text, h.start).Some? && h == HitAt(PATTERNS[n], text, h.start)
  }

  lemma {:induction false} HitsOfAreHits(text: string, n: nat, from: nat, h: Hit)
    requires n < |PATTERNS| && Sane(PATTERNS[n]) && h in HitsOf(PATTERNS[n], text, from)
    ensures HitOf(text, h, n)
    decreases |text| - from
  {
    var first := Exec(PATTERNS[n], text, from);
    if h != first.value { HitsOfAreHits(text, n, first.value.end, h); }
    hide MatchEnd, HitAt, Exec, HitsOf;
  }

  lemma {:induction false} FoundAreHits(text: string, n: nat, h: Hit)
    requires n <= |PATTERNS| && h in Found(text, n)
    ensures IsHit(text, h)
  {
    if n > 0 {
      PatternsAreSane(n - 1);
      if h in HitsOf(PATTERNS[n - 1], text, 0) {
        HitsOfAreHits(text, n - 1, 0, h);
      } else {
        FoundAreHits(text, n - 1, h);
      }
      hide MatchEnd, HitAt, HitsOf, Found;
    }
  }

  /** Every hit is a secret of its kind that goes on as far as it can, shown by its first eight characters. */
  lemma HitsAreSecrets(text: string, h: Hit)
    requires h in Scanned(text)
    ensures h.start < h.end <= |text| && IsSecret(h.kind, text[h.start..h.end])
    ensures forall f :: h.end < f <= |text| ==> !IsSecret(h.kind, text[h.start..f])
    ensures h.preview == text[h.start..h.start + 8] + "..."
  {
    var found := Found(text, |PATTERNS|);
    SortIsStable(found, StartsAfter);
    assert h in multiset(Scanned(text)) && h in multiset(found);
    FoundAreHits(text, |PATTERNS|, h);
    hide Found, Scanned, MatchEnd;
    var n :| 0 <= n < |PATTERNS| && HitOf(text, h, n);
    MatchMeans(n, text, h.start);
    MatchShape(PATTERNS[n], PATTERNS[n].prefixes, text, h.start) by { MatchEndIs(n, text, h.start); }
    EightOf(text, h.start, h.end);
    hide IsSecret;
  }

  lemma MatchEndIs(n: nat, text: string, i: nat)
    requires n < |PATTERNS| && MatchEnd(PATTERNS[n], text, i).Some?
    ensures FirstEnd(PATTERNS[n], PATTERNS[n].prefixes, text, i) == MatchEnd(PATTERNS[n], text, i)
  {}

  lemma EightOf(text: string, i: nat, e: nat)
    requires i + SHORTEST <= e <= |text|
    ensures text[i..e][..8] == text[i..i + 8]
  {}

  /** Wherever a secret begins, a hit covers its first character. */
  lemma SecretsAreHit(text: string, n: nat, i: nat, e: nat)
    requires n < |PATTERNS| && i <= e <= |text| && IsSecret(PATTERNS[n].kind, text[i..e])
    ensures Covered(Scanned(text), i)
  {
    LongestMatch(n, text, i, e);
    ScanComplete(text, n, i);
    hide IsSecret, MatchEnd, Scanned, Covered;
  }

  lemma KindsAre(kind: string, s: string)
    requires IsSecret(kind, s)
    ensures exists n :: 0 <= n < |PATTERNS| && PATTERNS[n].kind == kind
  {
    assert PATTERNS[0].kind == "anthropic_api_key" && PATTERNS[1].kind == "openai_api_key";
    assert PATTERNS[2].kind == "aws_access_key_id" && PATTERNS[3].kind == "github_pat";
  }

  /** A text has a hit exactly when a secret of one of the four kinds stands in it somewhere. */
  lemma ScanFindsIff(text: string)
    ensures Scanned(text) != [] <==>
              exists kind, i, e :: 0 <= i <= e <= |text| && IsSecret(kind, text[i..e])
  {
    if Scanned(text) != [] { HitsAreSecrets(text, Scanned(text)[0]); }
    forall kind, i: nat, e | i <= e <= |text| && IsSecret(kind, text[i..e]) ensures Scanned(text) != [] {
      KindsAre(kind, text[i..e]);
      var n :| 0 <= n < |PATTERNS| && PATTERNS[n].kind == kind;
      SecretsAreHit(text, n, i, e);
    }
  }

  /** A text with a single hit: what stands around it is kept and the hit named. */
  lemma OneHitRedacted(text: string, h: Hit)
    requires Scanned(text) == [h]
    ensures h.start < h.end <= |text|
    ensures Redacted(text, Scanned(text)) == text[..h.start] + ("[REDACTED:" + h.kind + "]") + text[h.end..]
  {
    HitsAreSecrets(text, h);
    hide Scanned, IsSecret;
    assert [h][..0] == [];
    assert AfterHits(text, []) == Progress("", 0);
    assert "" + text[0..h.start] == text[..h.start];
  }
}
