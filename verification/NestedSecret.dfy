/** A text on which redact leaves a secret in place. */
module NestedSecret {
  import opened RedactedText
  import opened Wrappers
  import opened SecretPatterns
  import opened SecretScanner
  import opened StableSort

  /** An Anthropic key whose body starts like an AWS key id and goes on with a second Anthropic key. */
  const NESTED: string := "sk-ant-api03-AKIA" + seq(16, _ => 'A') + "sk-ant-api03-" + seq(40, _ => 'a')

  lemma NestedChars(i: nat)
    requires i < |NESTED|
    ensures |NESTED| == 86
    ensures NESTED[i] != 'g' && (NESTED[i] == 's' ==> i == 0 || i == 33) && (NESTED[i] == 'K' <==> i == 14)
    ensures 13 <= i < 33 ==> InAlphabet(UpperDigit, NESTED[i])
    ensures i >= 13 ==> InAlphabet(AlnumDash, NESTED[i])
    ensures i >= 46 ==> InAlphabet(Alnum, NESTED[i])
  {}

  lemma NestedParts()
    ensures NESTED[0..13] == "sk-ant-api03-" && NESTED[13..17] == "AKIA" && NESTED[33..46] == "sk-ant-api03-"
    ensures NESTED[4] == NESTED[37] == 'n' && NESTED[6] == NESTED[39] == '-'
  {}

  lemma ExecFinds(p: Pattern, text: string, from: nat, i: nat)
    requires Sane(p) && from <= i && MatchEnd(p, text, i).Some?
    requires forall j :: from <= j < i ==> MatchEnd(p, text, j).None?
    ensures Exec(p, text, from) == Some(HitAt(p, text, i))
  {
    MatchShape(p, p.prefixes, text, i);
  }

  lemma {:induction false} OtherStart(p: Pattern, prefixes: seq<string>, text: string, i: nat, at: nat)
    requires forall k :: 0 <= k < |prefixes| ==>
               at < |prefixes[k]| && (i + at >= |text| || text[i + at] != prefixes[k][at])
    ensures FirstEnd(p, prefixes, text, i).None?
  {
    if prefixes != [] {
      var n := |prefixes[0]|;
      if i + n <= |text| { assert text[i..i + n][at] == text[i + at]; }
      OtherStart(p, prefixes[1..], text, i, at);
    }
  }

  lemma AnthropicHits()
    ensures Sane(ANTHROPIC)
    ensures |HitsOf(ANTHROPIC, NESTED, 0)| == 1
    ensures HitsOf(ANTHROPIC, NESTED, 0)[0].(preview := "") == Hit("anthropic_api_key", 0, 86, "")
  {
    PatternsAreSane(0);
    NestedParts();
    forall i | 13 <= i < 86 ensures InAlphabet(AlnumDash, NESTED[i]) { NestedChars(i); }
    RunReaches(AlnumDash, NESTED, 13, 86);
    assert EndWith(ANTHROPIC, "sk-ant-api03-", NESTED, 0) == Some(86);
    ExecFinds(ANTHROPIC, NESTED, 0, 0);
  }

  lemma OpenAiEnds(i: nat)
    requires i == 0 || i == 33
    ensures EndWith(OPENAI, "sk-proj-", NESTED, i).None? && EndWith(OPENAI, "sk-", NESTED, i).None?
  {
    NestedParts();
    assert EndWith(OPENAI, "sk-proj-", NESTED, i).None? by { assert NESTED[i..i + 8][4] == NESTED[i + 4]; }
    assert EndWith(OPENAI, "sk-", NESTED, i).None? by { assert !InAlphabet(Alnum, NESTED[i + 6]); }
  }

  /** Two prefixes are tried in turn. */
  lemma BothFail(p: Pattern, first: string, second: string, text: string, i: nat)
    requires EndWith(p, first, text, i).None? && EndWith(p, second, text, i).None?
    ensures FirstEnd(p, [first, second], text, i).None?
  {
    hide EndWith;
    assert [first, second][1..] == [second] && [second][1..] == [];
    assert FirstEnd(p, [second], text, i).None?;
  }

  lemma OpenAiMatches(i: nat)
    ensures MatchEnd(OPENAI, NESTED, i).None?
  {
    if i == 0 || i == 33 {
      OpenAiEnds(i);
      BothFail(OPENAI, "sk-proj-", "sk-", NESTED, i);
    } else {
      if i < 86 { NestedChars(i); }
      OtherStart(OPENAI, OPENAI.prefixes, NESTED, i, 0);
    }
  }

  lemma OpenAiHits()
    ensures Sane(OPENAI) && HitsOf(OPENAI, NESTED, 0) == []
  {
    PatternsAreSane(1);
    forall i: nat ensures MatchEnd(OPENAI, NESTED, i).None? { OpenAiMatches(i); }
  }

  lemma AwsMatches(i: nat)
    ensures MatchEnd(AWS, NESTED, i) == if i == 13 then Some(33) else None
  {
    if i == 13 {
      NestedParts();
      forall j | 17 <= j < 33 ensures InAlphabet(UpperDigit, NESTED[j]) { NestedChars(j); }
      RunReaches(UpperDigit, NESTED, 17, 33);
      assert EndWith(AWS, "AKIA", NESTED, 13) == Some(33);
    } else {
      if i + 1 < 86 { NestedChars(i + 1); }
      OtherStart(AWS, AWS.prefixes, NESTED, i, 1);
    }
  }

  lemma AwsHits()
    ensures Sane(AWS)
    ensures |HitsOf(AWS, NESTED, 0)| == 1
    ensures HitsOf(AWS, NESTED, 0)[0].(preview := "") == Hit("aws_access_key_id", 13, 33, "")
  {
    PatternsAreSane(2);
    forall i: nat ensures MatchEnd(AWS, NESTED, i) == if i == 13 then Some(33) else None { AwsMatches(i); }
    ExecFinds(AWS, NESTED, 0, 13);
    assert Exec(AWS, NESTED, 33).None?;
  }

  lemma GithubHits()
    ensures Sane(GITHUB) && HitsOf(GITHUB, NESTED, 0) == []
  {
    PatternsAreSane(3);
    forall i: nat ensures MatchEnd(GITHUB, NESTED, i).None? {
      if i < 86 { NestedChars(i); }
      OtherStart(GITHUB, GITHUB.prefixes, NESTED, i, 0);
    }
  }

  lemma NestedHits()
    ensures var hits := Scanned(NESTED);
            |hits| == 2 && hits[0].(preview := "") == Hit("anthropic_api_key", 0, 86, "")
                        && hits[1].(preview := "") == Hit("aws_access_key_id", 13, 33, "")
  {
    AnthropicHits();
    OpenAiHits();
    AwsHits();
    GithubHits();
    var a, w := HitsOf(ANTHROPIC, NESTED, 0)[0], HitsOf(AWS, NESTED, 0)[0];
    assert Found(NESTED, 1) == [a];
    assert Found(NESTED, 2) == [a];
    assert Found(NESTED, 3) == [a, w];
    assert Found(NESTED, 4) == [a, w];
    hide HitsOf, Found;
    assert [a, w][..1] == [a] && [a][..0] == [];
    assert Sort([a], StartsAfter) == [a];
    assert Sort([a, w], StartsAfter) == [a, w];
  }

  /** The second key is written out whole, so that a second redaction finds it. */
  lemma NestedSecretSurvives()
    ensures !NeverReopens(Scanned(NESTED))
    ensures Redacted(NESTED, Scanned(NESTED))
         == Marker("anthropic_api_key") + Marker("aws_access_key_id") + NESTED[33..]
    ensures MatchEnd(ANTHROPIC, NESTED[33..], 0) == Some(53) && WritesSecret(NESTED, Scanned(NESTED))
  {
    NestedHits();
    SecondKey();
    var hits := Scanned(NESTED);
    hide Scanned, Marker, MatchEnd;
    TwoHits(NESTED, hits);
    assert hits[1].end < hits[0].end;
    assert PATTERNS[0] == ANTHROPIC && HasMatch(NESTED[33..]);
    assert Written(NESTED, hits, 2) == NESTED[33..];
  }

  /** A hit over the whole text and one inside it. */
  lemma TwoHits(text: string, hits: seq<Hit>)
    requires |hits| == 2 && hits[0].start == 0 && hits[0].end == |text| && hits[1].start < hits[1].end < |text|
    ensures hits[..2] == hits && AfterHits(text, hits).cursor == hits[1].end
    ensures Redacted(text, hits) == Marker(hits[0].kind) + Marker(hits[1].kind) + text[hits[1].end..]
  {
    var none: seq<Hit>, one := [], [hits[0]];
    assert hits == one + [hits[1]] && one == none + [hits[0]] && hits[..2] == hits;
    AfterOneMore(text, none, hits[0]);
    AfterOneMore(text, one, hits[1]);
    assert AfterHits(text, none) == Progress("", 0);
    assert Slice(text, 0, 0) == "" == Slice(text, |text|, hits[1].start);
    assert Slice(text, hits[1].end, |text|) == text[hits[1].end..];
    hide AfterHits, Slice, Marker;
    assert "" + "" + Marker(hits[0].kind) == Marker(hits[0].kind);
    assert Marker(hits[0].kind) + "" == Marker(hits[0].kind);
  }

  lemma AfterOneMore(text: string, hits: seq<Hit>, h: Hit)
    ensures var before := AfterHits(text, hits);
            AfterHits(text, hits + [h])
            == Progress(before.out + Slice(text, before.cursor, h.start) + Marker(h.kind), h.end)
  {
    assert (hits + [h])[..|hits|] == hits;
  }

  lemma SecondKey()
    ensures |NESTED| == 86 && MatchEnd(ANTHROPIC, NESTED[33..], 0) == Some(53)
  {
    var key := NESTED[33..];
    NestedParts();
    NestedChars(0);
    assert key[0..13] == "sk-ant-api03-" by { assert key[0..13] == NESTED[33..46]; }
    forall i | 13 <= i < 53 ensures InAlphabet(AlnumDash, key[i]) { NestedChars(33 + i); }
    RunReaches(AlnumDash, key, 13, 53);
    assert EndWith(ANTHROPIC, "sk-ant-api03-", key, 0) == Some(53);
  }
}
