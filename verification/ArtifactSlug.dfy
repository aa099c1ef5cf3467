/**
 * packages/coworker-artifacts/src/slug.ts and resolve-uri.ts: slugs are minted from names and
 * parsed back out of artifact URIs. What JavaScript does to case and accents is a function of the
 * caller's (fold), and so is the clock (stamp).
 */
module ArtifactSlug {
  import opened Numerals
  import opened Wrappers

  const MAX_SLUG_LENGTH := 64
  const MAX_COLLISION_ATTEMPTS := 100

  predicate Alnum(c: char) {
    'a' <= c <= 'z' || '0' <= c <= '9'
  }

  // ---- The URI parser ----

  datatype UriError = WrongScheme | EmptySlug | PathTraversal | TooLong | NotASlug

  datatype Resolved = Resolved(slug: string) | Rejected(error: UriError)

  const SCHEME := "artifact://"

  /** /^[a-z0-9]([a-z0-9-]{0,62}[a-z0-9])?$/ */
  predicate SlugRegex(s: string) {
    && 1 <= |s| <= 64
    && Alnum(s[0]) && Alnum(s[|s| - 1])
    && forall i :: 0 <= i < |s| ==> Alnum(s[i]) || s[i] == '-'
  }

  predicate HasDots(s: string) {
    exists i :: 0 <= i < |s| - 1 && s[i] == '.' && s[i + 1] == '.'
  }

  /** The directories of the artifact are functions of the slug. */
  function ResolveUri(uri: string): Resolved {
    if !(SCHEME <= uri) then Rejected(WrongScheme)
    else
      var slug := uri[|SCHEME|..];
      if slug == "" then Rejected(EmptySlug)
      else if HasDots(slug) then Rejected(PathTraversal)
      else if |slug| > 64 then Rejected(TooLong)
      else if !SlugRegex(slug) then Rejected(NotASlug)
      else Resolved(slug)
  }

  /** Of the four checks on the slug the last one alone decides. */
  lemma ResolvesIff(s: string)
    ensures ResolveUri(SCHEME + s) == Resolved(s) <==> SlugRegex(s)
    ensures ResolveUri(SCHEME + s).Rejected? <==> !SlugRegex(s)
  {
    assert (SCHEME + s)[|SCHEME|..] == s;
    if SlugRegex(s) {
      forall i | 0 <= i < |s| ensures s[i] != '.' {}
    }
  }

  /** An artifact URI in characters: up to 64 lower-case letters, digits and inner dashes behind the scheme. */
  lemma UriResolvesIff(uri: string, slug: string)
    ensures ResolveUri(uri) == Resolved(slug) <==>
              && uri == "artifact://" + slug && 1 <= |slug| <= 64
              && slug[0] != '-' && slug[|slug| - 1] != '-'
              && forall i :: 0 <= i < |slug| ==> 'a' <= slug[i] <= 'z' || '0' <= slug[i] <= '9' || slug[i] == '-'
  {
    if SCHEME <= uri {
      assert uri == SCHEME + uri[|SCHEME|..];
      ResolvesIff(uri[|SCHEME|..]);
      if uri == "artifact://" + slug { assert uri[|SCHEME|..] == slug; }
    } else {
      assert SCHEME <= SCHEME + slug;
    }
    hide HasDots;
  }

  // ---- What a slug is of a name ----

  function WordEnd(s: string): (n: nat)
    ensures n <= |s| && (forall i :: 0 <= i < n ==> Alnum(s[i])) && (n < |s| ==> !Alnum(s[n]))
  {
    if s == "" || !Alnum(s[0]) then 0 else WordEnd(s[1..]) + 1
  }

  /** The maximal runs of letters and digits. */
  function Words(s: string): seq<string>
    decreases |s|
  {
    if s == "" then []
    else if !Alnum(s[0]) then Words(s[1..])
    else [s[..WordEnd(s)]] + Words(s[WordEnd(s)..])
  }

  function JoinWords(words: seq<string>): string {
    if words == [] then ""
    else if |words| == 1 then words[0]
    else words[0] + "-" + JoinWords(words[1..])
  }

  function TrimEnd(s: string): string {
    if s != "" && s[|s| - 1] == '-' then TrimEnd(s[..|s| - 1]) else s
  }

  /** The words with dashes between them, at most 64 characters, or a time stamp if there are none. */
  function Derived(folded: string, stamp: string): string {
    var s := JoinWords(Words(folded));
    var cut := if |s| > MAX_SLUG_LENGTH then TrimEnd(s[..MAX_SLUG_LENGTH]) else s;
    if cut == "" then "artifact-" + stamp else cut
  }

  // ---- How it is made ----

  function SkipOthers(s: string): (r: string)
    ensures |r| <= |s| && (r != "" ==> Alnum(r[0]))
  {
    if s != "" && !Alnum(s[0]) then SkipOthers(s[1..]) else s
  }

  /** s.replace(/[^a-z0-9]+/g, '-') */
  function DashOthers(s: string): string
    decreases |s|
  {
    if s == "" then ""
    else if Alnum(s[0]) then [s[0]] + DashOthers(s[1..])
    else "-" + DashOthers(SkipOthers(s[1..]))
  }

  function SkipDashes(s: string): (r: string)
    ensures |r| <= |s| && (r != "" ==> r[0] != '-')
  {
    if s != "" && s[0] == '-' then SkipDashes(s[1..]) else s
  }

  /** s.replace(/-+/g, '-') */
  function CollapseDashes(s: string): string
    decreases |s|
  {
    if s == "" then ""
    else if s[0] == '-' then "-" + CollapseDashes(SkipDashes(s[1..]))
    else [s[0]] + CollapseDashes(s[1..])
  }

  ghost predicate SingleDashes(s: string) {
    && (forall i :: 0 <= i < |s| ==> Alnum(s[i]) || s[i] == '-')
    && (forall i :: 0 <= i < |s| - 1 ==> s[i] != '-' || s[i + 1] != '-')
  }

  lemma {:induction false} DashedIsSingle(s: string)
    ensures SingleDashes(DashOthers(s))
    ensures s != "" ==> DashOthers(s) != "" && DashOthers(s)[0] == if Alnum(s[0]) then s[0] else '-'
    decreases |s|
  {
    if s != "" {
      var rest := if Alnum(s[0]) then s[1..] else SkipOthers(s[1..]);
      DashedIsSingle(rest);
      assert DashOthers(s)[1..] == DashOthers(rest);
    }
  }

  /** After the first replacement there is nothing left to collapse. */
  lemma {:induction false} CollapseIsIdle(s: string)
    requires SingleDashes(s)
    ensures CollapseDashes(s) == s
    decreases |s|
  {
    if s != "" {
      assert forall i :: 0 <= i < |s| - 1 ==> s[1..][i] == s[i + 1];
      CollapseIsIdle(s[1..]);
      assert s == [s[0]] + s[1..];
    }
  }

  lemma {:induction false} SkippedWords(s: string)
    ensures Words(SkipOthers(s)) == Words(s)
  {
    if s != "" && !Alnum(s[0]) { SkippedWords(s[1..]); }
  }

  lemma {:induction false} TrimEndConcat(a: string, b: string)
    ensures TrimEnd(b) != "" ==> TrimEnd(a + b) == a + TrimEnd(b)
  {
    if b != "" {
      assert (a + b)[..|a + b| - 1] == a + b[..|b| - 1];
      if b[|b| - 1] == '-' { TrimEndConcat(a, b[..|b| - 1]); }
    }
  }

  lemma {:induction false} TrimEndKeepsFirst(s: string)
    requires s != "" && s[0] != '-'
    ensures TrimEnd(s) != "" && TrimEnd(s)[0] == s[0] && TrimEnd(s) <= s && TrimEnd(s)[|TrimEnd(s)| - 1] != '-'
  {
    if s[|s| - 1] == '-' { TrimEndKeepsFirst(s[..|s| - 1]); }
  }

  lemma {:induction false} DashWord(s: string)
    ensures var n := WordEnd(s); DashOthers(s) == s[..n] + DashOthers(s[n..])
  {
    if s != "" && Alnum(s[0]) {
      DashWord(s[1..]);
      var n := WordEnd(s);
      assert s[..n] == [s[0]] + s[1..][..n - 1] && s[n..] == s[1..][n - 1..];
    }
  }

  /** Replacing what is not a word by dashes and trimming joins the words. */
  lemma {:induction false} DashingJoinsWords(s: string)
    requires s != "" ==> Alnum(s[0])
    ensures TrimEnd(DashOthers(s)) == JoinWords(Words(s))
    decreases |s|
  {
    if s != "" {
      var n := WordEnd(s);
      var word, rest := s[..n], SkipOthers(s[n..]);
      DashWord(s);
      SkippedWords(s[n..]);
      if n < |s| {
        assert DashOthers(s[n..]) == "-" + DashOthers(rest);
        DashingJoinsWords(rest);
        JoinAfterWord(word, rest);
      } else {
        assert word == s && s[n..] == "";
        assert word + "" == word;
        WordIsTrimmed(word);
      }
    }
  }

  lemma WordIsTrimmed(word: string)
    requires word != "" && Alnum(word[|word| - 1])
    ensures TrimEnd(word) == word && TrimEnd(word + "-") == word
  {
    assert (word + "-")[..|word|] == word;
  }

  lemma JoinAfterWord(word: string, rest: string)
    requires word != "" && Alnum(word[|word| - 1]) && (rest != "" ==> Alnum(rest[0]))
    requires TrimEnd(DashOthers(rest)) == JoinWords(Words(rest))
    ensures TrimEnd(word + ("-" + DashOthers(rest))) == JoinWords([word] + Words(rest))
  {
    if rest == "" {
      WordIsTrimmed(word);
      assert "-" + DashOthers(rest) == "-";
    } else {
      DashedIsSingle(rest);
      TrimEndKeepsFirst(DashOthers(rest));
      assert Words(rest) != [];
      hide TrimEnd, DashOthers, Words, JoinWords;
      JoinOneMore(word, DashOthers(rest), Words(rest));
    }
  }

  lemma JoinOneMore(word: string, dashed: string, words: seq<string>)
    requires words != [] && TrimEnd(dashed) != "" && TrimEnd(dashed) == JoinWords(words)
    ensures TrimEnd(word + ("-" + dashed)) == JoinWords([word] + words)
  {
    assert word + ("-" + dashed) == word + "-" + dashed;
    TrimEndConcat(word + "-", dashed);
    hide TrimEnd;
    assert ([word] + words)[1..] == words;
  }

  lemma TrimmedIsJoined(s: string)
    ensures TrimEnd(SkipDashes(DashOthers(s))) == JoinWords(Words(s))
  {
    var rest := SkipOthers(s);
    SkippedWords(s);
    DashingJoinsWords(rest);
    DashedIsSingle(rest);
    if rest != s {
      assert SkipOthers(s[1..]) == rest;
      assert DashOthers(s) == "-" + DashOthers(rest);
      assert DashOthers(s)[1..] == DashOthers(rest);
    }
  }

  method DeriveSlug(name: string, fold: string -> string, stamp: string) returns (s: string)
    ensures s == Derived(fold(name), stamp)
  {
    s := fold(name);
    TrimmedIsJoined(s);
    DashedIsSingle(s);
    CollapseIsIdle(DashOthers(s));
    s := DashOthers(s);
    s := CollapseDashes(s);
    s := TrimEnd(SkipDashes(s));
    if |s| > MAX_SLUG_LENGTH { s := TrimEnd(s[..MAX_SLUG_LENGTH]); }
    if s == "" { s := "artifact-" + stamp; }
  }

  // ---- The slug in characters ----

  /** Letters and digits as they come, one dash for whatever stands between two of them. */
  function Dashed(s: string, started: bool, gap: bool): string {
    if s == "" then ""
    else if 'a' <= s[0] <= 'z' || '0' <= s[0] <= '9' then
      (if started && gap then "-" else "") + [s[0]] + Dashed(s[1..], true, false)
    else Dashed(s[1..], started, true)
  }

  lemma {:induction false} DashedWord(s: string)
    ensures var n := WordEnd(s); Dashed(s, true, false) == s[..n] + Dashed(s[n..], true, false)
  {
    if s != "" && Alnum(s[0]) {
      DashedWord(s[1..]);
      var n := WordEnd(s);
      assert s[..n] == [s[0]] + s[1..][..n - 1] && s[n..] == s[1..][n - 1..];
    }
  }

  /** A word and what comes behind it. */
  lemma DashedAtWord(s: string, gap: bool)
    requires s != "" && Alnum(s[0])
    ensures var n := WordEnd(s);
            && 0 < n && Words(s) == [s[..n]] + Words(s[n..])
            && Dashed(s, false, gap) == s[..n] + Dashed(s[n..], true, false)
            && Dashed(s, true, true) == "-" + (s[..n] + Dashed(s[n..], true, false))
            && (n < |s| ==> Dashed(s[n..], true, false) == Dashed(s[n + 1..], true, true)
                            && Words(s[n..]) == Words(s[n + 1..]))
  {
    var n := WordEnd(s);
    DashedWord(s[1..]);
    assert s[..n] == [s[0]] + s[1..][..n - 1] && s[n..] == s[1..][n - 1..];
    var rest := Dashed(s[n..], true, false);
    assert [s[0]] + (s[1..][..n - 1] + rest) == s[..n] + rest;
    assert "-" + [s[0]] + (s[1..][..n - 1] + rest) == "-" + (s[..n] + rest);
    if n < |s| { assert s[n..][1..] == s[n + 1..]; }
  }

  lemma {:induction false} JoinedIsDashed(s: string, gap: bool)
    ensures Dashed(s, false, gap) == JoinWords(Words(s))
    ensures Dashed(s, true, true) == if Words(s) == [] then "" else "-" + JoinWords(Words(s))
    decreases |s|
  {
    if s == "" {
    } else if !Alnum(s[0]) {
      JoinedIsDashed(s[1..], true);
    } else {
      var n := WordEnd(s);
      DashedAtWord(s, gap);
      JoinFirst(s[..n], Words(s[n..]));
      if n < |s| {
        JoinedIsDashed(s[n + 1..], true);
      } else {
        NothingDashed(s[n..]);
      }
      hide Dashed, Alnum, Words, JoinWords;
    }
  }

  lemma NothingDashed(s: string)
    requires s == ""
    ensures Dashed(s, true, false) == "" && Words(s) == []
  {}

  lemma JoinFirst(word: string, words: seq<string>)
    ensures JoinWords([word] + words) == word + if words == [] then "" else "-" + JoinWords(words)
  {
    assert ([word] + words)[1..] == words;
  }

  lemma CutMeans(s: string)
    requires |s| > 64 && SingleDashes(s)
    ensures TrimEnd(s[..64]) == if s[63] == '-' then s[..63] else s[..64]
  {
    assert s[..64][..63] == s[..63];
    assert s[62] != '-' || s[63] != '-';
    hide SingleDashes;
  }

  /** At most 64 characters of that without a dash at the end, or the time stamp where it is empty. */
  lemma DerivedMeans(folded: string, stamp: string, s: string)
    requires s == Dashed(folded, false, false)
    ensures Derived(folded, stamp)
         == if s == "" then "artifact-" + stamp
            else if |s| <= 64 then s
            else if s[63] == '-' then s[..63]
            else s[..64]
  {
    JoinedIsDashed(folded, false);
    JoinedShape(folded);
    if |s| > 64 { CutMeans(s); }
    hide Words, JoinWords, Dashed, TrimEnd, SingleDashes;
  }

  // ---- Derived slugs resolve ----

  /** A time in milliseconds in base 36. */
  predicate IsStamp(s: string) {
    1 <= |s| <= 11 && forall i :: 0 <= i < |s| ==> Alnum(s[i])
  }

  /** A slug without two dashes in a row. */
  ghost predicate Minted(s: string) {
    SlugRegex(s) && SingleDashes(s)
  }

  lemma JoinedShape(s: string)
    ensures var j := JoinWords(Words(s)); SingleDashes(j) && (j != "" ==> Alnum(j[0]) && Alnum(j[|j| - 1]))
  {
    TrimmedIsJoined(s);
    var rest := SkipOthers(s);
    SkippedWords(s);
    DashingJoinsWords(rest);
    DashedIsSingle(rest);
    if rest != "" { TrimEndKeepsFirst(DashOthers(rest)); }
  }

  /** Every name gets a slug the URI parser takes and gives back. */
  lemma DerivedResolves(folded: string, stamp: string)
    requires IsStamp(stamp)
    ensures Minted(Derived(folded, stamp))
    ensures ResolveUri(SCHEME + Derived(folded, stamp)) == Resolved(Derived(folded, stamp))
  {
    var s := JoinWords(Words(folded));
    JoinedShape(folded);
    if |s| > MAX_SLUG_LENGTH {
      TrimEndKeepsFirst(s[..MAX_SLUG_LENGTH]);
    } else if s == "" {
      StampedIsMinted(stamp);
    }
    ResolvesIff(Derived(folded, stamp));
    hide JoinWords, Words, ResolveUri;
  }

  lemma StampedIsMinted(stamp: string)
    requires IsStamp(stamp)
    ensures Minted("artifact-" + stamp)
  {}

  lemma {:induction false} SingleDashesStay(s: string)
    requires SingleDashes(s)
    ensures DashOthers(s) == s
    decreases |s|
  {
    if s != "" {
      assert forall i :: 0 <= i < |s| - 1 ==> s[1..][i] == s[i + 1];
      SingleDashesStay(s[1..]);
      assert s == [s[0]] + s[1..];
    }
  }

  predicate SlugChars(s: string) {
    forall i :: 0 <= i < |s| ==> Alnum(s[i]) || s[i] == '-'
  }

  /** Folding leaves lower-case letters, digits and dashes alone. */
  ghost predicate KeepsSlugs(fold: string -> string) {
    forall s :: SlugChars(s) ==> fold(s) == s
  }

  /** A slug is its own slug, folding included. */
  lemma DerivedTwice(name: string, fold: string -> string, stamp: string, later: string)
    requires IsStamp(stamp) && KeepsSlugs(fold)
    ensures Derived(fold(Derived(fold(name), stamp)), later) == Derived(fold(name), stamp)
  {
    var s := Derived(fold(name), stamp);
    DerivedResolves(fold(name), stamp);
    assert SlugChars(s) && fold(s) == s;
    hide *;
    MintedStays(s, later);
  }

  lemma MintedStays(s: string, stamp: string)
    requires Minted(s)
    ensures Derived(s, stamp) == s
  {
    SingleDashesStay(s);
    TrimmedIsJoined(s);
    assert TrimEnd(s) == s && SkipDashes(s) == s;
    hide JoinWords, Words;
  }

  // ---- Collisions ----

  /** Candidate 1 is the base itself. */
  function Candidate(base: string, n: nat): string {
    if n == 1 then base else base + "-" + Decimal(n)
  }

  lemma CandidatesDiffer(base: string, m: nat, n: nat)
    requires 1 <= m < n
    ensures Candidate(base, m) != Candidate(base, n)
  {
    if Candidate(base, m) == Candidate(base, n) && m > 1 {
      assert Candidate(base, m)[|base| + 1..] == Decimal(m) && Candidate(base, n)[|base| + 1..] == Decimal(n);
      DecimalInjective(m, n);
    }
  }

  ghost predicate FirstFree(base: string, taken: set<string>, s: string, n: nat) {
    && 1 <= n <= 101 && s == Candidate(base, n) && s !in taken
    && forall k :: 1 <= k < n ==> Candidate(base, k) in taken
  }

  /** The first candidate that is not taken; None when they run out. */
  method NextCollisionSlug(base: string, taken: set<string>) returns (s: Option<string>)
    ensures s.Some? ==> exists n :: FirstFree(base, taken, s.value, n)
    ensures s.None? ==> forall k :: 1 <= k <= 101 ==> Candidate(base, k) in taken
  {
    if base !in taken {
      assert FirstFree(base, taken, base, 1);
      return Some(base);
    }
    for n := 2 to MAX_COLLISION_ATTEMPTS + 2
      invariant forall k :: 1 <= k < n ==> Candidate(base, k) in taken
    {
      var candidate := base + "-" + Decimal(n);
      if candidate !in taken {
        assert FirstFree(base, taken, candidate, n);
        return Some(candidate);
      }
    }
    s := None;
  }

  function CandidatesTo(base: string, n: nat): set<string> {
    set k | 1 <= k <= n :: Candidate(base, k)
  }

  lemma {:induction false} CountCandidates(base: string, n: nat)
    ensures |CandidatesTo(base, n)| == n
  {
    if n > 0 {
      CountCandidates(base, n - 1);
      if Candidate(base, n) in CandidatesTo(base, n - 1) {
        var k :| 1 <= k <= n - 1 && Candidate(base, k) == Candidate(base, n);
        CandidatesDiffer(base, k, n);
      }
      assert CandidatesTo(base, n) == CandidatesTo(base, n - 1) + {Candidate(base, n)};
    }
  }

  lemma SubsetSmaller<T>(a: set<T>, b: set<T>)
    requires a <= b
    ensures |a| <= |b|
  {
    assert b == a + (b - a);
  }

  /** With at most a hundred slugs taken, some candidate is free. */
  lemma NeverRunsOut(base: string, taken: set<string>)
    requires |taken| <= 100
    ensures exists k :: 1 <= k <= 101 && Candidate(base, k) !in taken
  {
    if forall k :: 1 <= k <= 101 ==> Candidate(base, k) in taken {
      CountCandidates(base, 101);
      SubsetSmaller(CandidatesTo(base, 101), taken);
    }
  }

  /** A numbered slug resolves exactly when it still fits. */
  lemma CandidateResolvesIff(base: string, n: nat)
    requires SlugRegex(base) && n >= 2
    ensures ResolveUri(SCHEME + Candidate(base, n)) == Resolved(Candidate(base, n)) <==> |base| + 1 + |Decimal(n)| <= 64
  {
    ResolvesIff(Candidate(base, n));
    DecimalShape(n);
    var d := Decimal(n);
    forall i | 0 <= i < |d| ensures Alnum(d[i]) {}
    hide ResolveUri, Decimal;
  }

  lemma ShortBasesResolve(base: string, n: nat)
    requires SlugRegex(base) && |base| <= 60 && 1 <= n <= 101
    ensures ResolveUri(SCHEME + Candidate(base, n)) == Resolved(Candidate(base, n))
  {
    DecimalShape(n);
    ResolvesIff(base);
    if n >= 2 { CandidateResolvesIff(base, n); }
  }
}
