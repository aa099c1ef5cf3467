/**
 * src/headless-answers.ts: the answer injector. A select request whose question is not known yet
 * waits under its title, with a timer of its own; a second request with the same title takes the
 * place of the first but leaves its timer running. Requests are numbered as they arrive and a
 * timer has the number of its request.
 */
module HeadlessAnswers {
  import opened Wrappers

  datatype Answer = Single(value: string) | Many(values: seq<string>)

  datatype Strategy = FirstOption | Cancel

  datatype AnswerFile = AnswerFile(questions: map<string, Answer>, strategy: Strategy)

  datatype Question = Question(id: string, header: string, question: string, allowMultiple: bool)

  datatype Request = Request(id: string, title: string, options: Option<seq<string>>)

  datatype Body = Value(value: string) | Values(values: seq<string>) | Cancelled

  datatype Reply = Reply(n: nat, id: string, body: Body)

  datatype Deferred = Deferred(title: string, n: nat)

  /** claimed: the requests tryHandle returned true for, which nobody else will answer. */
  datatype State = State(
    metas: map<string, Question>,
    deferred: seq<Deferred>,
    armed: map<nat, Request>,
    answered: nat,
    defaulted: nat,
    requests: seq<Request>,
    claimed: set<nat>,
    sent: seq<Reply>)

  datatype Event = Observe(questions: seq<Question>) | TryHandle(kind: string, request: Request) | Fire(n: nat)

  function TitleOf(q: Question): string {
    q.header + ": " + q.question
  }

  function Learn(metas: map<string, Question>, questions: seq<Question>): map<string, Question> {
    if questions == [] then metas
    else Learn(metas, questions[..|questions| - 1])[TitleOf(questions[|questions| - 1]) := questions[|questions| - 1]]
  }

  predicate Offers(r: Request, value: string) {
    r.options.Some? && value in r.options.value
  }

  predicate OffersAll(r: Request, values: seq<string>) {
    forall i :: 0 <= i < |values| ==> Offers(r, values[i])
  }

  /** The reply the answer file has for a request, if it has a valid one. */
  function AnswerFor(file: AnswerFile, q: Question, r: Request): Option<Body> {
    if q.id !in file.questions then None
    else
      var answer := file.questions[q.id];
      if q.allowMultiple then
        var values := if answer.Many? then answer.values else [answer.value];
        if OffersAll(r, values) then Some(Values(values)) else None
      else if answer.Many? && answer.values == [] then None
      else
        var value := if answer.Many? then answer.values[0] else answer.value;
        if Offers(r, value) then Some(Value(value)) else None
  }

  /** What processWithMeta replies; None leaves the request to the auto-responder. */
  function ReplyFor(file: AnswerFile, q: Question, r: Request): Option<Body> {
    var a := AnswerFor(file, q, r);
    if a.Some? then a else if file.strategy.Cancel? then Some(Cancelled) else None
  }

  function Processed(file: AnswerFile, s: State, n: nat, r: Request): State
    requires r.title in s.metas
  {
    var q := s.metas[r.title];
    var reply := ReplyFor(file, q, r);
    var counted :=
      if AnswerFor(file, q, r).Some? then s.(answered := s.answered + 1) else s.(defaulted := s.defaulted + 1);
    if reply.None? then counted else counted.(sent := s.sent + [Reply(n, r.id, reply.value)])
  }

  function Without(deferred: seq<Deferred>, title: string): seq<Deferred> {
    if deferred == [] then []
    else if deferred[0].title == title then Without(deferred[1..], title)
    else [deferred[0]] + Without(deferred[1..], title)
  }

  /** Map.set: in place under a title that is there, else at the end. */
  function Put(deferred: seq<Deferred>, d: Deferred): seq<Deferred> {
    if deferred == [] then [d]
    else if deferred[0].title == d.title then [d] + deferred[1..]
    else [deferred[0]] + Put(deferred[1..], d)
  }

  /** A deferred request whose question has become known. */
  function Resolve(file: AnswerFile, s: State, d: Deferred): State
    requires d.n in s.armed && s.armed[d.n].title in s.metas
  {
    var r := s.armed[d.n];
    Processed(file, s.(deferred := Without(s.deferred, d.title), armed := s.armed - {d.n}), d.n, r)
  }

  predicate CanResolve(s: State, d: Deferred) {
    d.title in s.metas && d.n in s.armed && s.armed[d.n].title == d.title
  }

  function ResolveAll(file: AnswerFile, s: State, ds: seq<Deferred>): State {
    if ds == [] then s
    else
      var before := ResolveAll(file, s, ds[..|ds| - 1]);
      var d := ds[|ds| - 1];
      if CanResolve(before, d) then Resolve(file, before, d) else before
  }

  function TimeoutBody(file: AnswerFile, r: Request): Body {
    if file.strategy.Cancel? then Cancelled
    else Value(if r.options.Some? && |r.options.value| > 0 then r.options.value[0] else "")
  }

  function Handle(file: AnswerFile, s: State, r: Request): State {
    var n := |s.requests|;
    var received := s.(requests := s.requests + [r]);
    if r.title in s.metas then
      var processed := Processed(file, received, n, r);
      if ReplyFor(file, s.metas[r.title], r).Some? then processed.(claimed := s.claimed + {n}) else processed
    else
      received.(deferred := Put(s.deferred, Deferred(r.title, n)), armed := s.armed[n := r], claimed := s.claimed + {n})
  }

  function TimedOut(file: AnswerFile, s: State, n: nat): State
    requires n in s.armed
  {
    var r := s.armed[n];
    s.(deferred := Without(s.deferred, r.title), armed := s.armed - {n}, defaulted := s.defaulted + 1,
       sent := s.sent + [Reply(n, r.id, TimeoutBody(file, r))])
  }

  function Step(file: AnswerFile, s: State, e: Event): State {
    match e
    case Observe(questions) => ResolveAll(file, s.(metas := Learn(s.metas, questions)), s.deferred)
    case TryHandle(kind, r) => if kind == "select" then Handle(file, s, r) else s
    case Fire(n) => if n in s.armed then TimedOut(file, s, n) else s
  }

  const START := State(map[], [], map[], 0, 0, [], {}, [])

  // ---- What every step keeps ----

  ghost predicate DeferredOk(s: State) {
    && (forall i, j :: 0 <= i < j < |s.deferred| ==> s.deferred[i].title != s.deferred[j].title)
    && (forall i :: 0 <= i < |s.deferred| ==>
          s.deferred[i].n in s.armed && s.armed[s.deferred[i].n].title == s.deferred[i].title)
  }

  ghost predicate ArmedOk(s: State) {
    forall n :: n in s.armed ==> n < |s.requests| && s.armed[n] == s.requests[n] && n in s.claimed
  }

  predicate Counted(s: State) {
    s.answered + s.defaulted + |s.armed| == |s.requests|
  }

  /** A reply goes to a claimed request that no longer waits, under its id. */
  ghost predicate ReplyOk(s: State, p: Reply) {
    p.n < |s.requests| && p.id == s.requests[p.n].id && p.n in s.claimed && p.n !in s.armed
  }

  ghost predicate SentOk(s: State) {
    && (forall i :: 0 <= i < |s.sent| ==> ReplyOk(s, s.sent[i]))
    && (forall i, j :: 0 <= i < j < |s.sent| ==> s.sent[i].n != s.sent[j].n)
  }

  /** All but the count. */
  ghost predicate Rest(s: State) {
    DeferredOk(s) && ArmedOk(s) && SentOk(s) && forall n :: n in s.claimed ==> n < |s.requests|
  }

  ghost predicate Inv(s: State) {
    Rest(s) && Counted(s)
  }

  lemma {:induction false} WithoutIs(deferred: seq<Deferred>, title: string)
    ensures forall i :: 0 <= i < |Without(deferred, title)| ==>
              Without(deferred, title)[i] in deferred && Without(deferred, title)[i].title != title
    ensures (forall i, j :: 0 <= i < j < |deferred| ==> deferred[i].title != deferred[j].title) ==>
              forall i, j :: 0 <= i < j < |Without(deferred, title)| ==>
                Without(deferred, title)[i].title != Without(deferred, title)[j].title
  {
    if deferred != [] { WithoutIs(deferred[1..], title); }
  }

  lemma {:induction false} PutIs(deferred: seq<Deferred>, d: Deferred)
    requires forall i, j :: 0 <= i < j < |deferred| ==> deferred[i].title != deferred[j].title
    ensures forall i :: 0 <= i < |Put(deferred, d)| ==> Put(deferred, d)[i] == d || Put(deferred, d)[i] in deferred
    ensures forall i, j :: 0 <= i < j < |Put(deferred, d)| ==> Put(deferred, d)[i].title != Put(deferred, d)[j].title
  {
    if deferred != [] { PutIs(deferred[1..], d); }
  }

  lemma RemoveArmed(armed: map<nat, Request>, n: nat)
    requires n in armed
    ensures |armed - {n}| == |armed| - 1
  {
    assert (armed - {n}).Keys == armed.Keys - {n};
  }

  lemma AddArmed(armed: map<nat, Request>, n: nat, r: Request)
    requires n !in armed
    ensures |armed[n := r]| == |armed| + 1
  {
    assert armed[n := r].Keys == armed.Keys + {n};
  }

  /** Request n stops waiting: its title is free and its timer gone. */
  function Released(s: State, n: nat): State
    requires n in s.armed
  {
    s.(deferred := Without(s.deferred, s.armed[n].title), armed := s.armed - {n})
  }

  lemma ReleasedKeeps(s: State, n: nat)
    requires Inv(s) && n in s.armed
    ensures Rest(Released(s, n))
    ensures Released(s, n).answered + Released(s, n).defaulted + |Released(s, n).armed| + 1 == |s.requests|
    ensures n in s.claimed && s.armed[n] == s.requests[n] && forall i :: 0 <= i < |s.sent| ==> s.sent[i].n != n
  {
    RemoveArmed(s.armed, n);
    WithoutIs(s.deferred, s.armed[n].title);
    var r := Released(s, n);
    forall i | 0 <= i < |r.deferred|
      ensures r.deferred[i].n in r.armed && r.armed[r.deferred[i].n].title == r.deferred[i].title
    {
      var j :| 0 <= j < |s.deferred| && s.deferred[j] == r.deferred[i];
    }
  }

  lemma SendKeeps(s: State, p: Reply)
    requires Rest(s) && ReplyOk(s, p) && forall i :: 0 <= i < |s.sent| ==> s.sent[i].n != p.n
    ensures Rest(s.(sent := s.sent + [p]))
  {}

  /** Processing settles the one request the count is short of. */
  lemma ProcessKeeps(file: AnswerFile, s: State, n: nat, r: Request)
    requires Rest(s) && s.answered + s.defaulted + |s.armed| + 1 == |s.requests|
    requires r.title in s.metas && n < |s.requests| && s.requests[n] == r && n !in s.armed
    requires ReplyFor(file, s.metas[r.title], r).Some? ==> n in s.claimed
    requires forall i :: 0 <= i < |s.sent| ==> s.sent[i].n != n
    ensures Inv(Processed(file, s, n, r))
  {
    var reply := ReplyFor(file, s.metas[r.title], r);
    if reply.Some? { SendKeeps(s, Reply(n, r.id, reply.value)); }
    hide AnswerFor, ReplyFor;
  }

  lemma ResolveKeeps(file: AnswerFile, s: State, d: Deferred)
    requires Inv(s) && CanResolve(s, d)
    ensures Inv(Resolve(file, s, d))
  {
    ReleasedKeeps(s, d.n);
    assert ArmedOk(s);
    hide Rest, Inv, Without, Processed, ReplyFor;
    ProcessKeeps(file, Released(s, d.n), d.n, s.armed[d.n]);
  }

  lemma {:induction false} ResolveAllKeeps(file: AnswerFile, s: State, ds: seq<Deferred>)
    requires Inv(s)
    ensures Inv(ResolveAll(file, s, ds))
  {
    if ds != [] {
      ResolveAllKeeps(file, s, ds[..|ds| - 1]);
      var before := ResolveAll(file, s, ds[..|ds| - 1]);
      if CanResolve(before, ds[|ds| - 1]) { ResolveKeeps(file, before, ds[|ds| - 1]); }
    }
  }

  lemma TimedOutKeeps(file: AnswerFile, s: State, n: nat)
    requires Inv(s) && n in s.armed
    ensures Inv(TimedOut(file, s, n))
  {
    ReleasedKeeps(s, n);
    SendKeeps(Released(s, n), Reply(n, s.armed[n].id, TimeoutBody(file, s.armed[n])));
  }

  lemma ReceiveKeeps(s: State, r: Request)
    requires Inv(s)
    ensures Rest(s.(requests := s.requests + [r])) && |s.requests| !in s.armed
    ensures forall i :: 0 <= i < |s.sent| ==> s.sent[i].n != |s.requests|
  {}

  lemma HandleKeeps(file: AnswerFile, s: State, r: Request)
    requires Inv(s)
    ensures Inv(Handle(file, s, r))
  {
    ReceiveKeeps(s, r);
    if r.title in s.metas {
      HandleKnownKeeps(file, s, r);
    } else {
      hide Rest, Put;
      AddArmed(s.armed, |s.requests|, r);
      DeferKeeps(s, r);
    }
  }

  lemma HandleKnownKeeps(file: AnswerFile, s: State, r: Request)
    requires Inv(s) && r.title in s.metas
    ensures Inv(Handle(file, s, r))
  {
    var n := |s.requests|;
    var received := s.(requests := s.requests + [r]);
    var claims := ReplyFor(file, s.metas[r.title], r).Some?;
    ReceiveKeeps(s, r);
    ClaimKeeps(received, n);
    hide Rest, ReplyFor, AnswerFor;
    ProcessKeeps(file, if claims then received.(claimed := s.claimed + {n}) else received, n, r);
  }

  lemma ClaimKeeps(s: State, n: nat)
    requires Rest(s) && n < |s.requests|
    ensures Rest(s.(claimed := s.claimed + {n}))
  {}

  lemma DeferKeeps(s: State, r: Request)
    requires Inv(s)
    ensures var n := |s.requests|;
            Rest(s.(requests := s.requests + [r], claimed := s.claimed + {n}, armed := s.armed[n := r],
                    deferred := Put(s.deferred, Deferred(r.title, n))))
  {
    PutIs(s.deferred, Deferred(r.title, |s.requests|));
  }

  lemma StepKeeps(file: AnswerFile, s: State, e: Event)
    requires Inv(s)
    ensures Inv(Step(file, s, e))
  {
    match e
    case Observe(questions) =>
      assert Inv(s.(metas := Learn(s.metas, questions)));
      ResolveAllKeeps(file, s.(metas := Learn(s.metas, questions)), s.deferred);
    case TryHandle(kind, r) => HandleKeeps(file, s, r);
    case Fire(n) => if n in s.armed { TimedOutKeeps(file, s, n); }
  }

  // ---- Runs ----

  function Run(file: AnswerFile, s: State, es: seq<Event>): State
    decreases |es|
  {
    if es == [] then s else Run(file, Step(file, s, es[0]), es[1..])
  }

  lemma {:induction false} RunKeeps(file: AnswerFile, s: State, es: seq<Event>)
    requires Inv(s)
    ensures Inv(Run(file, s, es))
    decreases |es|
  {
    if es != [] {
      StepKeeps(file, s, es[0]);
      RunKeeps(file, Step(file, s, es[0]), es[1..]);
    }
  }

  /** Every select request is answered, defaulted or waiting, and gets no second reply. */
  lemma EveryRequestCounted(file: AnswerFile, es: seq<Event>)
    ensures var s := Run(file, START, es);
      && s.answered + s.defaulted + |s.armed| == |s.requests|
      && (forall i, j :: 0 <= i < j < |s.sent| ==> s.sent[i].n != s.sent[j].n)
      && (forall i :: 0 <= i < |s.sent| ==> s.sent[i].n < |s.requests| && s.sent[i].id == s.requests[s.sent[i].n].id)
  {
    RunKeeps(file, START, es);
  }

  // ---- Requests that are claimed and never answered ----

  predicate Replied(s: State, n: nat) {
    exists i :: 0 <= i < |s.sent| && s.sent[i].n == n
  }

  /** tryHandle took the request, nothing is waiting for it and nothing was sent. */
  predicate Stranded(s: State, n: nat) {
    n in s.claimed && n !in s.armed && !Replied(s, n)
  }

  /** The questions arrive while n waits under one of their titles, and bring no valid answer. */
  ghost predicate Strands(file: AnswerFile, s: State, e: Event, n: nat) {
    && e.Observe? && file.strategy.FirstOption?
    && exists i :: 0 <= i < |s.deferred| && s.deferred[i].n == n && n in s.armed
         && s.deferred[i].title in Learn(s.metas, e.questions)
         && AnswerFor(file, Learn(s.metas, e.questions)[s.deferred[i].title], s.armed[n]).None?
  }

  lemma RepliedAfter(s: State, p: Reply, n: nat)
    ensures Replied(s.(sent := s.sent + [p]), n) <==> Replied(s, n) || p.n == n
  {
    var t := s.(sent := s.sent + [p]);
    if Replied(s, n) {
      var i :| 0 <= i < |s.sent| && s.sent[i].n == n;
      assert t.sent[i].n == n;
    }
    if p.n == n { assert t.sent[|s.sent|].n == n; }
  }

  ghost predicate Waits(s: State, d: Deferred) {
    d.n in s.armed && s.armed[d.n].title == d.title
  }

  /** Request n is one of the waiting ones whose title is known. */
  ghost predicate Known(s: State, ds: seq<Deferred>, n: nat) {
    exists i :: 0 <= i < |ds| && ds[i].n == n && ds[i].title in s.metas
  }

  /** What resolving the waiting requests does to request n. */
  ghost predicate Resolved(file: AnswerFile, s: State, ds: seq<Deferred>, n: nat, after: State) {
    && (n in after.armed <==> n in s.armed && !Known(s, ds, n))
    && (n in after.armed ==> after.armed[n] == s.armed[n])
    && (Replied(after, n) <==>
          || Replied(s, n)
          || (Known(s, ds, n) && n in s.armed && s.armed[n].title in s.metas
              && ReplyFor(file, s.metas[s.armed[n].title], s.armed[n]).Some?))
  }

  lemma ResolveOne(file: AnswerFile, s: State, d: Deferred, n: nat)
    requires CanResolve(s, d)
    ensures var after := Resolve(file, s, d);
      && (n in after.armed <==> n in s.armed && n != d.n)
      && (n in after.armed ==> after.armed[n] == s.armed[n])
      && (Replied(after, n) <==> Replied(s, n) || (n == d.n && ReplyFor(file, s.metas[d.title], s.armed[n]).Some?))
      && after.metas == s.metas && after.claimed == s.claimed && after.requests == s.requests
  {
    var r := s.armed[d.n];
    var reply := ReplyFor(file, s.metas[r.title], r);
    if reply.Some? { RepliedAfter(s, Reply(d.n, r.id, reply.value), n); }
    hide ReplyFor, AnswerFor, Without;
  }

  lemma KnownLast(s: State, ds: seq<Deferred>, n: nat)
    requires ds != []
    ensures var k := |ds| - 1; Known(s, ds, n) <==> Known(s, ds[..k], n) || (ds[k].n == n && ds[k].title in s.metas)
  {
    var k := |ds| - 1;
    if Known(s, ds[..k], n) {
      var i :| 0 <= i < k && ds[..k][i].n == n && ds[..k][i].title in s.metas;
      assert ds[i].n == n;
    }
  }

  lemma {:induction false} ResolveAllOutcome(file: AnswerFile, s: State, ds: seq<Deferred>, n: nat)
    requires forall i :: 0 <= i < |ds| ==> Waits(s, ds[i])
    requires forall i, j :: 0 <= i < j < |ds| ==> ds[i].title != ds[j].title
    ensures var after := ResolveAll(file, s, ds);
      && after.metas == s.metas && after.claimed == s.claimed && after.requests == s.requests
      && Resolved(file, s, ds, n, after)
  {
    if ds != [] {
      var k := |ds| - 1;
      var init, d := ds[..k], ds[k];
      var before := ResolveAll(file, s, init);
      ResolveAllOutcome(file, s, init, n);
      ResolveAllOutcome(file, s, init, d.n);
      KnownLast(s, ds, n);
      NotKnownEarlier(s, ds);
      hide Known, ReplyFor, Replied, Resolve;
      assert Waits(before, d);
      if CanResolve(before, d) { ResolveOne(file, before, d, n); }
    }
  }

  lemma NotKnownEarlier(s: State, ds: seq<Deferred>)
    requires ds != [] && forall i :: 0 <= i < |ds| ==> Waits(s, ds[i])
    requires forall i, j :: 0 <= i < j < |ds| ==> ds[i].title != ds[j].title
    ensures !Known(s, ds[..|ds| - 1], ds[|ds| - 1].n)
  {
    var k := |ds| - 1;
    forall i | 0 <= i < k ensures ds[..k][i].n != ds[k].n { assert Waits(s, ds[i]) && Waits(s, ds[k]); }
  }

  /** A deferred request still waits when its turn comes. */
  lemma StillWaits(file: AnswerFile, s: State, ds: seq<Deferred>)
    requires ds != [] && forall i :: 0 <= i < |ds| ==> Waits(s, ds[i])
    requires forall i, j :: 0 <= i < j < |ds| ==> ds[i].title != ds[j].title
    ensures Waits(ResolveAll(file, s, ds[..|ds| - 1]), ds[|ds| - 1])
  {
    ResolveAllOutcome(file, s, ds[..|ds| - 1], ds[|ds| - 1].n);
    NotKnownEarlier(s, ds);
    assert Waits(s, ds[|ds| - 1]);
    hide Known, Replied, ReplyFor, ResolveAll;
  }

  lemma ObserveOutcome(file: AnswerFile, s: State, questions: seq<Question>, n: nat)
    requires Inv(s)
    ensures Stranded(Step(file, s, Observe(questions)), n) <==>
              Stranded(s, n) || Strands(file, s, Observe(questions), n)
  {
    var learned := s.(metas := Learn(s.metas, questions));
    forall i | 0 <= i < |s.deferred| ensures Waits(learned, s.deferred[i]) {}
    ResolveAllOutcome(file, learned, s.deferred, n);
    if n in s.armed {
      assert !Replied(s, n) && n in s.claimed;
      assert Known(learned, s.deferred, n) ==> s.armed[n].title in learned.metas by {
        forall i | 0 <= i < |s.deferred| ensures Waits(s, s.deferred[i]) {}
      }
    }
    hide AnswerFor, ResolveAll, Learn;
  }

  /** A request is left without reply exactly when its question arrives late and without a valid answer. */
  lemma StrandedIff(file: AnswerFile, s: State, e: Event, n: nat)
    requires Inv(s)
    ensures Stranded(Step(file, s, e), n) <==> Stranded(s, n) || Strands(file, s, e, n)
  {
    match e
    case Observe(questions) => ObserveOutcome(file, s, questions, n);
    case TryHandle(kind, r) =>
      var reply := if r.title in s.metas then ReplyFor(file, s.metas[r.title], r) else None;
      if reply.Some? { RepliedAfter(s, Reply(|s.requests|, r.id, reply.value), n); }
      hide AnswerFor, ReplyFor;
    case Fire(m) =>
      if m in s.armed { RepliedAfter(s, Reply(m, s.armed[m].id, TimeoutBody(file, s.armed[m])), n); }
  }

  /** Once stranded, no later event brings a reply. */
  lemma {:induction false} StrandedForGood(file: AnswerFile, s: State, es: seq<Event>, n: nat)
    requires Inv(s) && Stranded(s, n)
    ensures Stranded(Run(file, s, es), n)
    decreases |es|
  {
    if es != [] {
      StepKeeps(file, s, es[0]);
      StrandedIff(file, s, es[0], n);
      StrandedForGood(file, Step(file, s, es[0]), es[1..], n);
    }
  }

  /** Under the cancel strategy every claimed request waits or has its one reply. */
  lemma {:induction false} CancelStrandsNone(file: AnswerFile, s: State, es: seq<Event>, n: nat)
    requires Inv(s) && file.strategy.Cancel? && !Stranded(s, n)
    ensures !Stranded(Run(file, s, es), n)
    decreases |es|
  {
    if es != [] {
      StepKeeps(file, s, es[0]);
      StrandedIff(file, s, es[0], n);
      CancelStrandsNone(file, Step(file, s, es[0]), es[1..], n);
    }
  }

  /** It happens: the request comes first, then its question, for which the file has nothing. */
  lemma LateQuestionStrands(file: AnswerFile, q: Question, r: Request)
    requires file.strategy.FirstOption? && q.id !in file.questions && r.title == TitleOf(q)
    ensures var s := Step(file, START, TryHandle("select", r));
      && s == Run(file, START, [TryHandle("select", r)]) && Inv(s)
      && Strands(file, s, Observe([q]), 0) && Stranded(Step(file, s, Observe([q])), 0)
  {
    var s := Step(file, START, TryHandle("select", r));
    assert [TryHandle("select", r)][1..] == [];
    StepKeeps(file, START, TryHandle("select", r));
    assert s.deferred == [Deferred(r.title, 0)] && s.armed == map[0 := r];
    assert [q][..0] == [] && Learn(s.metas, [q]) == map[r.title := q];
    assert s.deferred[0].n == 0;
    StrandedIff(file, s, Observe([q]), 0);
  }

  // ---- Requests their answer can no longer reach ----

  predicate InReach(s: State, n: nat) {
    exists i :: 0 <= i < |s.deferred| && s.deferred[i].n == n
  }

  /** The questions reach a waiting request exactly if it is deferred and its title is among the known ones. */
  lemma ObserveReachesIff(file: AnswerFile, s: State, questions: seq<Question>, n: nat)
    requires Inv(s) && n in s.armed
    ensures n !in Step(file, s, Observe(questions)).armed <==>
              InReach(s, n) && s.armed[n].title in Learn(s.metas, questions)
  {
    var learned := s.(metas := Learn(s.metas, questions));
    forall i | 0 <= i < |s.deferred| ensures Waits(learned, s.deferred[i]) {}
    ResolveAllOutcome(file, learned, s.deferred, n);
    if InReach(s, n) && s.armed[n].title in learned.metas {
      var i :| 0 <= i < |s.deferred| && s.deferred[i].n == n;
      assert Waits(s, s.deferred[i]);
    }
    hide ResolveAll, Learn;
  }

  lemma {:induction false} WithoutKeeps(deferred: seq<Deferred>, title: string, d: Deferred)
    ensures d in Without(deferred, title) <==> d in deferred && d.title != title
  {
    if deferred != [] { WithoutKeeps(deferred[1..], title, d); }
  }

  lemma {:induction false} PutKeeps(deferred: seq<Deferred>, put: Deferred, d: Deferred)
    requires forall i, j :: 0 <= i < j < |deferred| ==> deferred[i].title != deferred[j].title
    ensures d in Put(deferred, put) <==> d == put || (d in deferred && d.title != put.title)
  {
    if deferred != [] {
      PutKeeps(deferred[1..], put, d);
      if deferred[0].title == put.title {
        assert forall i :: 1 <= i < |deferred| ==> deferred[i].title != put.title;
      }
    }
  }

  /** A waiting request is in reach exactly if it stands under its title. */
  lemma InReachIs(s: State, n: nat)
    requires DeferredOk(s) && n in s.armed
    ensures InReach(s, n) <==> Deferred(s.armed[n].title, n) in s.deferred
  {
    if InReach(s, n) {
      var i :| 0 <= i < |s.deferred| && s.deferred[i].n == n;
      assert s.deferred[i] == Deferred(s.armed[n].title, n);
    }
    if Deferred(s.armed[n].title, n) in s.deferred {
      var i :| 0 <= i < |s.deferred| && s.deferred[i] == Deferred(s.armed[n].title, n);
      assert s.deferred[i].n == n;
    }
  }

  /** A second request under the title of n, or the timer of another request under it. */
  predicate TakesPlace(s: State, e: Event, n: nat)
    requires n in s.armed
  {
    match e
    case Observe(_) => false
    case TryHandle(kind, r) => kind == "select" && r.title == s.armed[n].title && r.title !in s.metas
    case Fire(m) => m != n && m in s.armed && s.armed[m].title == s.armed[n].title
  }

  lemma {:induction false} ResolveAllSpares(file: AnswerFile, s: State, ds: seq<Deferred>, d: Deferred)
    requires d.title !in s.metas
    ensures d in ResolveAll(file, s, ds).deferred <==> d in s.deferred
    ensures ResolveAll(file, s, ds).metas == s.metas
  {
    if ds != [] {
      var before, last := ResolveAll(file, s, ds[..|ds| - 1]), ds[|ds| - 1];
      ResolveAllSpares(file, s, ds[..|ds| - 1], d);
      if CanResolve(before, last) {
        WithoutKeeps(before.deferred, last.title, d);
        hide ReplyFor, AnswerFor, Without;
      }
    }
  }

  lemma ObserveKeepsReach(file: AnswerFile, s: State, questions: seq<Question>, n: nat)
    requires Inv(s) && n in s.armed && n in Step(file, s, Observe(questions)).armed
    ensures InReach(Step(file, s, Observe(questions)), n) <==> InReach(s, n)
  {
    var after := Step(file, s, Observe(questions));
    var learned := s.(metas := Learn(s.metas, questions));
    var title := s.armed[n].title;
    ObserveReachesIff(file, s, questions, n);
    StepKeeps(file, s, Observe(questions));
    ArmedStays(file, s, Observe(questions), n);
    InReachIs(s, n);
    InReachIs(after, n);
    if title !in learned.metas {
      ResolveAllSpares(file, learned, s.deferred, Deferred(title, n));
    } else {
      assert forall i :: 0 <= i < |after.deferred| ==> after.deferred[i] in s.deferred by {
        ResolveAllShrinks(file, learned, s.deferred);
      }
    }
  }

  lemma {:induction false} ResolveAllShrinks(file: AnswerFile, s: State, ds: seq<Deferred>)
    ensures forall i :: 0 <= i < |ResolveAll(file, s, ds).deferred| ==>
              ResolveAll(file, s, ds).deferred[i] in s.deferred
  {
    if ds != [] {
      var before, last := ResolveAll(file, s, ds[..|ds| - 1]), ds[|ds| - 1];
      ResolveAllShrinks(file, s, ds[..|ds| - 1]);
      WithoutIs(before.deferred, last.title);
      hide ReplyFor, AnswerFor, Without;
    }
  }

  /** Waiting on, a request is the one it was. */
  lemma ArmedStays(file: AnswerFile, s: State, e: Event, n: nat)
    requires Inv(s) && n in s.armed && n in Step(file, s, e).armed
    ensures Step(file, s, e).armed[n] == s.armed[n]
  {
    if e.Observe? {
      var learned := s.(metas := Learn(s.metas, e.questions));
      forall i | 0 <= i < |s.deferred| ensures Waits(learned, s.deferred[i]) {}
      ResolveAllOutcome(file, learned, s.deferred, n);
    }
    hide ResolveAll, Learn, ReplyFor, AnswerFor, Put, Without;
  }

  /** A request that waits on stays in reach unless another takes its place, and does not come back into reach. */
  lemma ReachIff(file: AnswerFile, s: State, e: Event, n: nat)
    requires Inv(s) && n in s.armed && n in Step(file, s, e).armed
    ensures InReach(Step(file, s, e), n) <==> InReach(s, n) && !TakesPlace(s, e, n)
  {
    var d := Deferred(s.armed[n].title, n);
    StepKeeps(file, s, e);
    ArmedStays(file, s, e, n);
    InReachIs(s, n);
    InReachIs(Step(file, s, e), n);
    match e
    case Observe(questions) => ObserveKeepsReach(file, s, questions, n);
    case TryHandle(kind, r) =>
      PutKeeps(s.deferred, Deferred(r.title, |s.requests|), d);
      hide ReplyFor, AnswerFor, Put;
    case Fire(m) =>
      if m in s.armed { WithoutKeeps(s.deferred, s.armed[m].title, d); }
      hide Without;
  }

  /** A new request waits in reach. */
  lemma NewIsInReach(file: AnswerFile, s: State, e: Event, n: nat)
    requires Inv(s) && n !in s.armed && n in Step(file, s, e).armed
    ensures e.TryHandle? && n == |s.requests| && InReach(Step(file, s, e), n)
  {
    match e
    case Observe(questions) =>
      var learned := s.(metas := Learn(s.metas, questions));
      forall i | 0 <= i < |s.deferred| ensures Waits(learned, s.deferred[i]) {}
      ResolveAllOutcome(file, learned, s.deferred, n);
    case TryHandle(kind, r) =>
      StepKeeps(file, s, e);
      PutKeeps(s.deferred, Deferred(r.title, n), Deferred(r.title, n));
      InReachIs(Step(file, s, e), n);
      hide ReplyFor, AnswerFor, Put;
    case Fire(m) =>
  }

  ghost predicate AllInReach(s: State) {
    forall n :: n in s.armed ==> InReach(s, n)
  }

  /** No two waiting requests have the same title. */
  predicate OneEachTitle(s: State) {
    forall m, n :: m in s.armed && n in s.armed && m != n ==> s.armed[m].title != s.armed[n].title
  }

  lemma InReachOneEachTitle(s: State)
    requires DeferredOk(s) && AllInReach(s)
    ensures OneEachTitle(s)
  {
    forall m, n | m in s.armed && n in s.armed && m != n ensures s.armed[m].title != s.armed[n].title {
      var i :| 0 <= i < |s.deferred| && s.deferred[i].n == m;
      var j :| 0 <= j < |s.deferred| && s.deferred[j].n == n;
      assert s.deferred[i].title != s.deferred[j].title by { assert i < j || j < i; }
    }
  }

  lemma TakingMeansTwo(file: AnswerFile, s: State, e: Event, n: nat)
    requires Inv(s) && n in s.armed && n in Step(file, s, e).armed && TakesPlace(s, e, n)
    ensures !OneEachTitle(s) || !OneEachTitle(Step(file, s, e))
  {
    ArmedStays(file, s, e, n);
    if e.TryHandle? {
      var m := |s.requests|;
      assert m in Step(file, s, e).armed && m != n;
    }
    hide AnswerFor, ReplyFor, Put;
  }

  lemma StaysInReach(file: AnswerFile, s: State, e: Event)
    requires Inv(s) && AllInReach(s) && OneEachTitle(s) && OneEachTitle(Step(file, s, e))
    ensures AllInReach(Step(file, s, e))
  {
    var after := Step(file, s, e);
    forall n | n in after.armed ensures InReach(after, n) {
      if n !in s.armed {
        NewIsInReach(file, s, e, n);
      } else {
        ReachIff(file, s, e, n);
        if TakesPlace(s, e, n) { TakingMeansTwo(file, s, e, n); }
      }
    }
  }

  /** The property holds in every state of a run. */
  ghost predicate Always(p: State -> bool, file: AnswerFile, s: State, es: seq<Event>)
    decreases |es|
  {
    p(s) && (es != [] ==> Always(p, file, Step(file, s, es[0]), es[1..]))
  }

  /**
   * Every waiting request can be reached by its answer all along a run exactly when no two ever
   * wait under one title.
   */
  lemma {:induction false} ReachableIffOneEachTitle(file: AnswerFile, s: State, es: seq<Event>)
    requires Inv(s) && AllInReach(s)
    ensures Always(AllInReach, file, s, es) <==> Always(OneEachTitle, file, s, es)
    decreases |es|
  {
    InReachOneEachTitle(s);
    if es != [] {
      var after := Step(file, s, es[0]);
      StepKeeps(file, s, es[0]);
      if OneEachTitle(after) { StaysInReach(file, s, es[0]); }
      if AllInReach(after) {
        ReachableIffOneEachTitle(file, after, es[1..]);
      } else {
        assert !Always(AllInReach, file, after, es[1..]) && !Always(OneEachTitle, file, after, es[1..]);
      }
    }
  }

  /** Two requests under one title: the first timer takes the second request out of reach of its answer. */
  lemma SharedTitleLosesAnswer(file: AnswerFile, q: Question, a: Request, b: Request)
    requires a.title == b.title == TitleOf(q) && a.title !in START.metas
    ensures var s := Run(file, START, [TryHandle("select", a), TryHandle("select", b), Fire(0), Observe([q])]);
            TitleOf(q) in s.metas && s.armed == map[1 := b] && s.deferred == [] && s.answered == 0
  {
    var s1 := Step(file, START, TryHandle("select", a));
    assert s1.deferred == [Deferred(a.title, 0)] && s1.armed == map[0 := a];
    var s2 := Step(file, s1, TryHandle("select", b));
    assert s2.deferred == [Deferred(a.title, 1)] && s2.armed == map[0 := a, 1 := b];
    var s3 := Step(file, s2, Fire(0));
    assert Without(s2.deferred, a.title) == Without([], a.title) == [] by { assert s2.deferred[1..] == []; }
    assert s3.deferred == [] && s3.armed == map[1 := b];
    var s4 := Step(file, s3, Observe([q]));
    assert s4 == s3.(metas := Learn(s3.metas, [q]));
    assert [q][..0] == [];
    var es := [TryHandle("select", a), TryHandle("select", b), Fire(0), Observe([q])];
    assert es[1..] == [es[1], es[2], es[3]] && es[1..][1..] == [es[2], es[3]] && es[1..][1..][1..] == [es[3]];
    assert Run(file, s3, [es[3]]) == s4 by { assert [es[3]][1..] == []; }
    assert Run(file, s2, [es[2], es[3]]) == s4 by { assert [es[2], es[3]][1..] == [es[3]]; }
    assert Run(file, s1, [es[1], es[2], es[3]]) == s4 by { assert [es[1], es[2], es[3]][1..] == [es[2], es[3]]; }
  }

  // ---- The injector ----

  class AnswerInjector {
    const file: AnswerFile
    var metas: map<string, Question>
    var deferred: seq<Deferred>
    var armed: map<nat, Request>
    var answered: nat
    var defaulted: nat
    var requests: seq<Request>
    var claimed: set<nat>
    var sent: seq<Reply>

    function View(): State
      reads this
    {
      State(metas, deferred, armed, answered, defaulted, requests, claimed, sent)
    }

    constructor (file: AnswerFile)
      ensures this.file == file && View() == START && Inv(View())
    {
      this.file := file;
      metas, deferred, armed, answered, defaulted, requests, claimed, sent := map[], [], map[], 0, 0, [], {}, [];
    }

    /** The metadata first, then everything that was waiting for it. */
    method ObserveEvent(questions: seq<Question>)
      requires Inv(View())
      modifies this
      ensures Inv(View()) && View() == Step(file, old(View()), Observe(questions))
    {
      StepKeeps(file, View(), Observe(questions));
      assert DeferredOk(View());
      LearnQuestions(questions);
      assert DeferredOk(View());
      hide Inv, ResolveAll;
      ResolveWaiting();
    }

    method LearnQuestions(questions: seq<Question>)
      modifies this`metas
      ensures metas == Learn(old(metas), questions)
    {
      for i := 0 to |questions|
        invariant metas == Learn(old(metas), questions[..i])
      {
        assert questions[..i + 1][..i] == questions[..i];
        metas := metas[TitleOf(questions[i]) := questions[i]];
      }
      assert questions[..|questions|] == questions;
    }

    method ResolveWaiting()
      requires DeferredOk(View())
      modifies this
      ensures View() == ResolveAll(file, old(View()), old(deferred))
    {
      var waiting := deferred;
      ghost var before := View();
      forall i | 0 <= i < |waiting| ensures Waits(before, waiting[i]) {}
      hide DeferredOk;
      for i := 0 to |waiting|
        invariant View() == ResolveAll(file, old(View()), waiting[..i])
      {
        assert waiting[..i + 1][..i] == waiting[..i];
        var d := waiting[i];
        StillWaits(file, old(View()), waiting[..i + 1]);
        if d.title in metas { ResolveDeferred(d); }
      }
      assert waiting[..|waiting|] == waiting;
    }

    method ResolveDeferred(d: Deferred)
      requires CanResolve(View(), d)
      modifies this
      ensures View() == Resolve(file, old(View()), d)
    {
      var r := armed[d.n];
      armed := armed - {d.n};
      deferred := Without(deferred, d.title);
      var _ := ProcessWithMeta(d.n, r);
    }

    method TryHandle(kind: string, r: Request) returns (handled: bool)
      requires Inv(View())
      modifies this
      ensures Inv(View()) && View() == Step(file, old(View()), Event.TryHandle(kind, r))
      ensures handled <==> kind == "select" && |old(requests)| in claimed
    {
      StepKeeps(file, View(), Event.TryHandle(kind, r));
      if kind != "select" { return false; }
      var n := |requests|;
      assert n !in claimed;
      hide Inv, Put, AnswerFor;
      requests := requests + [r];
      if r.title in metas {
        handled := ProcessWithMeta(n, r);
        if handled { claimed := claimed + {n}; }
        return;
      }
      Defer(n, r);
      handled := true;
    }

    /** The title is unknown: arm a timer and wait for the question. */
    method Defer(n: nat, r: Request)
      modifies this`armed, this`deferred, this`claimed
      ensures View() == old(View()).(deferred := Put(old(deferred), Deferred(r.title, n)),
                                     armed := old(armed)[n := r], claimed := old(claimed) + {n})
    {
      armed := armed[n := r];
      deferred := Put(deferred, Deferred(r.title, n));
      claimed := claimed + {n};
    }

    /** The timer of request n. */
    method Fire(n: nat)
      requires Inv(View()) && n in armed
      modifies this
      ensures Inv(View()) && View() == Step(file, old(View()), Event.Fire(n))
    {
      StepKeeps(file, View(), Event.Fire(n));
      hide Inv;
      RespondLate(n);
    }

    method RespondLate(n: nat)
      requires n in armed
      modifies this
      ensures View() == TimedOut(file, old(View()), n)
    {
      hide Without;
      var r := armed[n];
      deferred := Without(deferred, r.title);
      armed := armed - {n};
      defaulted := defaulted + 1;
      if file.strategy.Cancel? {
        sent := sent + [Reply(n, r.id, Cancelled)];
      } else {
        var first := if r.options.Some? && |r.options.value| > 0 then r.options.value[0] else "";
        sent := sent + [Reply(n, r.id, Value(first))];
      }
    }

    method ProcessWithMeta(n: nat, r: Request) returns (handled: bool)
      requires r.title in metas
      modifies this`answered, this`defaulted, this`sent
      ensures View() == Processed(file, old(View()), n, r)
      ensures handled == ReplyFor(file, metas[r.title], r).Some?
    {
      var answer := AnswerFor(file, metas[r.title], r);
      if answer.Some? {
        sent := sent + [Reply(n, r.id, answer.value)];
        answered := answered + 1;
        return true;
      }
      defaulted := defaulted + 1;
      if file.strategy.Cancel? {
        sent := sent + [Reply(n, r.id, Cancelled)];
        return true;
      }
      return false;
    }
  }
}
