/** What the answer injector replies and what it counts, in terms of the answer file and the request. */
module HeadlessReplies {
  import opened Wrappers
  import opened HeadlessAnswers

  // ---- Questions become known ----

  /** q has this title, and no later one in the list has. */
  ghost predicate LastTitled(questions: seq<Question>, q: Question, title: string) {
    exists i :: 0 <= i < |questions| && questions[i] == q && q.header + ": " + q.question == title
                && forall j :: i < j < |questions| ==> questions[j].header + ": " + questions[j].question != title
  }

  /** A title is known once a question with that header and text has been observed; the last one counts. */
  lemma {:induction false} LearnMeans(
    metas: map<string, Question>, questions: seq<Question>, title: string, q: Question)
    ensures title in Learn(metas, questions) && Learn(metas, questions)[title] == q <==>
              || LastTitled(questions, q, title)
              || (&& title in metas && metas[title] == q
                  && forall i :: 0 <= i < |questions| ==> questions[i].header + ": " + questions[i].question != title)
  {
    if questions != [] {
      var init, last := questions[..|questions| - 1], questions[|questions| - 1];
      assert questions == init + [last];
      LearnMeans(metas, init, title, q);
      LearnLast(metas, questions);
      LastTitledSnoc(init, last, q, title);
      hide Learn, LastTitled;
    }
  }

  lemma LastTitledSnoc(init: seq<Question>, last: Question, q: Question, title: string)
    ensures LastTitled(init + [last], q, title) <==>
              if last.header + ": " + last.question == title then q == last else LastTitled(init, q, title)
  {
    var all := init + [last];
    assert forall i :: 0 <= i < |init| ==> all[i] == init[i];
    if last.header + ": " + last.question == title {
      assert all[|init|] == last;
    } else if LastTitled(init, q, title) {
      var i :| 0 <= i < |init| && init[i] == q && q.header + ": " + q.question == title
               && forall j :: i < j < |init| ==> init[j].header + ": " + init[j].question != title;
      assert all[i] == q;
    }
  }

  lemma LearnLast(metas: map<string, Question>, questions: seq<Question>)
    requires questions != []
    ensures var last := questions[|questions| - 1];
            Learn(metas, questions)
            == Learn(metas, questions[..|questions| - 1])[last.header + ": " + last.question := last]
  {}

  // ---- The answer ----

  /** The answer file has the body as a valid answer: every value is among the options of the request. */
  predicate Answers(file: AnswerFile, q: Question, r: Request, body: Body) {
    && q.id in file.questions
    && match file.questions[q.id]
       case Single(v) => body == (if q.allowMultiple then Values([v]) else Value(v))
                         && r.options.Some? && v in r.options.value
       case Many(vs) =>
         if q.allowMultiple then
           body == Values(vs) && forall i :: 0 <= i < |vs| ==> r.options.Some? && vs[i] in r.options.value
         else vs != [] && body == Value(vs[0]) && r.options.Some? && vs[0] in r.options.value
  }

  lemma AnswerForIff(file: AnswerFile, q: Question, r: Request, body: Body)
    ensures AnswerFor(file, q, r) == Some(body) <==> Answers(file, q, r, body)
  {
    if q.id in file.questions && file.questions[q.id].Single? {
      var v := file.questions[q.id].value;
      assert OffersAll(r, [v]) <==> Offers(r, v) by { assert [v][0] == v; }
    }
  }

  // ---- The replies of one step ----

  /** What may be replied to a request whose question is known: its answer, or under cancel a cancellation. */
  ghost predicate Due(file: AnswerFile, q: Question, r: Request, body: Body) {
    || Answers(file, q, r, body)
    || (file.strategy == Cancel && body == Cancelled && forall b :: !Answers(file, q, r, b))
  }

  lemma ReplyIsDue(file: AnswerFile, q: Question, r: Request, body: Body)
    ensures ReplyFor(file, q, r) == Some(body) <==> Due(file, q, r, body)
    ensures AnswerFor(file, q, r).Some? ==> AnswerFor(file, q, r).value != Cancelled
  {
    forall b ensures AnswerFor(file, q, r) == Some(b) <==> Answers(file, q, r, b) { AnswerForIff(file, q, r, b); }
    hide Answers;
  }

  /** The replies from number k on are due. */
  ghost predicate RepliesDue(file: AnswerFile, s: State, k: nat) {
    forall i :: k <= i < |s.sent| ==>
      && s.sent[i].n < |s.requests| && s.requests[s.sent[i].n].title in s.metas
      && s.sent[i].id == s.requests[s.sent[i].n].id
      && Due(file, s.metas[s.requests[s.sent[i].n].title], s.requests[s.sent[i].n], s.sent[i].body)
  }

  /** Replies that are not cancellations. */
  function Valued(sent: seq<Reply>): nat {
    if sent == [] then 0
    else Valued(sent[..|sent| - 1]) + if sent[|sent| - 1].body == Cancelled then 0 else 1
  }

  lemma ValuedSnoc(sent: seq<Reply>, p: Reply)
    ensures Valued(sent + [p]) == Valued(sent) + if p.body == Cancelled then 0 else 1
  {
    assert (sent + [p])[..|sent|] == sent;
  }

  /** One processed request: its reply is due, and an answer is counted exactly when one is sent. */
  lemma ProcessedReplies(file: AnswerFile, s: State, n: nat, r: Request, k: nat)
    requires r.title in s.metas && n < |s.requests| && s.requests[n] == r && k <= |s.sent| && RepliesDue(file, s, k)
    ensures var s' := Processed(file, s, n, r);
      && RepliesDue(file, s', k) && s.sent <= s'.sent
      && s'.answered - s.answered == Valued(s'.sent) - Valued(s.sent)
      && (s'.answered - s.answered) + (s'.defaulted - s.defaulted) == 1
  {
    var q := s.metas[r.title];
    var reply := ReplyFor(file, q, r);
    forall body ensures ReplyFor(file, q, r) == Some(body) <==> Due(file, q, r, body) { ReplyIsDue(file, q, r, body); }
    ReplyIsDue(file, q, r, Cancelled);
    if reply.Some? { ValuedSnoc(s.sent, Reply(n, r.id, reply.value)); }
    hide AnswerFor, Due, Valued;
  }

  lemma {:induction false} ResolvedReplies(file: AnswerFile, s: State, ds: seq<Deferred>, k: nat)
    requires Inv(s) && k <= |s.sent| && RepliesDue(file, s, k)
    ensures var s' := ResolveAll(file, s, ds);
      && s'.metas == s.metas && s'.requests == s.requests && s.sent <= s'.sent && RepliesDue(file, s', k)
      && s'.answered - s.answered == Valued(s'.sent) - Valued(s.sent)
  {
    if ds != [] {
      var init, d := ds[..|ds| - 1], ds[|ds| - 1];
      ResolvedReplies(file, s, init, k);
      ResolveAllKeeps(file, s, init);
      var before := ResolveAll(file, s, init);
      if CanResolve(before, d) { ResolveReplies(file, before, d, k); }
      hide Inv, Valued, RepliesDue, Resolve, CanResolve;
    }
  }

  lemma ResolveReplies(file: AnswerFile, s: State, d: Deferred, k: nat)
    requires Inv(s) && CanResolve(s, d) && k <= |s.sent| && RepliesDue(file, s, k)
    ensures var s' := Resolve(file, s, d);
      && s'.metas == s.metas && s'.requests == s.requests && s.sent <= s'.sent && RepliesDue(file, s', k)
      && s'.answered - s.answered == Valued(s'.sent) - Valued(s.sent)
  {
    ArmedRequest(s, d.n);
    var released := s.(deferred := Without(s.deferred, d.title), armed := s.armed - {d.n});
    hide Inv, Valued, Due, ReplyFor, AnswerFor, Without;
    assert RepliesDue(file, released, k);
    ProcessedReplies(file, released, d.n, s.armed[d.n], k);
  }

  lemma ArmedRequest(s: State, n: nat)
    requires Inv(s) && n in s.armed
    ensures n < |s.requests| && s.armed[n] == s.requests[n]
  {}

  /**
   * Every reply of a step is the one the file and the strategy call for: at the timeout a
   * cancellation, or the first option; otherwise the valid answer, or under cancel a
   * cancellation if there is none. Answers are counted as answered, all else as defaulted.
   */
  lemma StepReplies(file: AnswerFile, s: State, e: Event)
    requires Inv(s)
    ensures var s' := Step(file, s, e);
      && s.sent <= s'.sent
      && (e.Fire? && e.n in s.armed ==>
            && s'.sent == s.sent + [Reply(e.n, s.armed[e.n].id,
                 if file.strategy == Cancel then Cancelled
                 else Value(if s.armed[e.n].options.Some? && s.armed[e.n].options.value != []
                            then s.armed[e.n].options.value[0] else ""))]
            && s'.answered == s.answered && s'.defaulted == s.defaulted + 1)
      && (!e.Fire? ==> RepliesDue(file, s', |s.sent|)
                       && s'.answered - s.answered == Valued(s'.sent) - Valued(s.sent))
  {
    match e
    case Observe(questions) =>
      ObservedReplies(file, s, questions);
      hide Inv, Valued, Due, AnswerFor, Learn, ResolveAll;
    case TryHandle(kind, r) =>
      if kind == "select" { HandledReplies(file, s, r); }
      hide Inv, Valued, Due, AnswerFor, Handle;
    case Fire(n) => hide Inv, Valued, Due, AnswerFor, Without;
  }

  lemma LearningKeeps(s: State, questions: seq<Question>)
    requires Inv(s)
    ensures Inv(s.(metas := Learn(s.metas, questions)))
  {
    hide Learn;
  }

  lemma ObservedReplies(file: AnswerFile, s: State, questions: seq<Question>)
    requires Inv(s)
    ensures var s' := ResolveAll(file, s.(metas := Learn(s.metas, questions)), s.deferred);
      && s.sent <= s'.sent && RepliesDue(file, s', |s.sent|)
      && s'.answered - s.answered == Valued(s'.sent) - Valued(s.sent)
  {
    var learned := s.(metas := Learn(s.metas, questions));
    LearningKeeps(s, questions);
    hide Inv, Valued, Due, AnswerFor, Learn, ResolveAll;
    ResolvedReplies(file, learned, s.deferred, |s.sent|);
  }

  lemma HandledReplies(file: AnswerFile, s: State, r: Request)
    requires Inv(s)
    ensures var s' := Handle(file, s, r);
      && s.sent <= s'.sent && RepliesDue(file, s', |s.sent|)
      && s'.answered - s.answered == Valued(s'.sent) - Valued(s.sent)
  {
    var received := s.(requests := s.requests + [r]);
    if r.title in s.metas { ProcessedReplies(file, received, |s.requests|, r, |s.sent|); }
    hide Inv, Valued, Due, AnswerFor, ReplyFor, Put, Processed;
  }

  /** A select request of unknown title waits under a timer of its own; one of known title is claimed if replied to. */
  lemma RequestTaken(file: AnswerFile, s: State, kind: string, r: Request)
    requires Inv(s)
    ensures var s', n := Step(file, s, TryHandle(kind, r)), |s.requests|;
            if kind != "select" then s' == s
            else if r.title !in s.metas then
              && s'.armed == s.armed[n := r] && s'.claimed == s.claimed + {n} && s'.sent == s.sent
              && s'.answered == s.answered && s'.defaulted == s.defaulted && Deferred(r.title, n) in s'.deferred
            else
              && s'.armed == s.armed && s'.deferred == s.deferred
              && (n in s'.claimed <==> exists body :: Due(file, s.metas[r.title], r, body))
              && |s'.sent| == |s.sent| + (if n in s'.claimed then 1 else 0)
              && s'.answered + s'.defaulted == s.answered + s.defaulted + 1
  {
    assert |s.requests| !in s.claimed;
    PutHolds(s.deferred, Deferred(r.title, |s.requests|));
    if r.title in s.metas {
      var q := s.metas[r.title];
      forall body ensures ReplyFor(file, q, r) == Some(body) <==> Due(file, q, r, body) {
        ReplyIsDue(file, q, r, body);
      }
      if ReplyFor(file, q, r).Some? { assert Due(file, q, r, ReplyFor(file, q, r).value); }
    }
    hide Inv, AnswerFor, ReplyFor, Due, Put;
  }

  lemma {:induction false} PutHolds(deferred: seq<Deferred>, d: Deferred)
    ensures d in Put(deferred, d)
  {
    if deferred != [] { PutHolds(deferred[1..], d); }
  }
}
