/**
 * The parallel phase of Pipeline.Run as a transition system (pipeline.go): every check has a program counter,
 * every mutex section is one step, and the parent context may be cancelled at any moment.
 */
module ParallelPhase {
  import opened Wrappers
  import opened Reports
  import opened Errors

  /** shouldShortCircuitValidator on a report that is present. */
  predicate ShortCircuits(r: Report) {
    !r.IsObservation() && r.Effective() != NONE
  }

  /** Where a check's goroutine stands. */
  datatype Counter =
    | Running
    | ErrSeen(err: Err)       // the evidence is still to be appended
    | ErrNoted(err: Err)      // is it nothing but a cancellation, with a live parent?
    | ErrTested(err: Err)     // it is: has a sibling stopped the phase?
    | ErrKept(err: Err)       // it counts: offer it as the first error
    | Returning(err: Err)     // hand it to the group
    | RepSeen(rep: Report)    // append it
    | RepAppended(rep: Report) // it refuses: record the decision
    | Done

  /** What a callback returned, and the group context's error when it was looked at afterwards. */
  datatype Answer = Answer(rep: Option<Report>, err: Option<Err>, ctx: Option<Err>)

  datatype State = State(counters: seq<Counter>, answers: seq<Option<Answer>>,
                         reports: seq<Report>, block: Option<Report>, retry: Option<Report>,
                         firstErr: Option<Err>, groupErr: Option<Err>,
                         ctxErr: Option<Err>, parent: Option<Err>)

  datatype Event =
    | ParentCancelled(e: Err)
    | ContextCancelled(e: Err)
    | Returned(i: nat, rep: Option<Report>, err: Option<Err>)
    | Advanced(i: nat)

  /** The error for a redaction, which this phase forbids. */
  const REDACT_ERROR := Wrapped(Some(Plain))

  function Start(checks: nat): State {
    State(seq(checks, _ => Running), seq(checks, _ => None), [], None, None, None, None, None, None)
  }

  predicate IsContextError(e: Err) { e == Canceled || e == DeadlineExceeded }

  predicate Sized(s: State) { |s.counters| == |s.answers| }

  predicate Enabled(s: State, ev: Event)
    requires Sized(s)
  {
    match ev
    case ParentCancelled(e) => s.parent.None? && IsContextError(e)
    case ContextCancelled(e) =>
      s.ctxErr.None? && (s.parent == Some(e) || (e == Canceled && (s.block.Some? || s.groupErr.Some?)))
    case Returned(i, _, _) => i < |s.counters| && s.counters[i].Running?
    case Advanced(i) => i < |s.counters| && !s.counters[i].Running? && !s.counters[i].Done?
  }

  function Apply(s: State, ev: Event): (t: State)
    requires Sized(s) && Enabled(s, ev)
    ensures Sized(t)
  {
    match ev
    case ParentCancelled(e) => s.(parent := Some(e))
    case ContextCancelled(e) => s.(ctxErr := Some(e))
    case Returned(i, rep, err) =>
      s.(answers := s.answers[i := Some(Answer(rep, err, s.ctxErr))],
         counters := s.counters[i := Landing(rep, WithContext(err, s.ctxErr))])
    case Advanced(i) =>
      var t := Section(s, s.counters[i]);
      t.0.(counters := s.counters[i := t.1])
  }

  /** Where a goroutine goes right after its callback. */
  function Landing(rep: Option<Report>, err: Option<Err>): Counter {
    if err.Some? then ErrSeen(err.value)
    else if rep.None? then Done
    else if rep.value.action == REDACT then ErrKept(REDACT_ERROR)
    else RepSeen(rep.value)
  }

  /** One mutex section, or one read, of a goroutine that is past its callback. */
  function Section(s: State, c: Counter): (State, Counter)
    requires !c.Running? && !c.Done?
  {
    match c
    case ErrSeen(e) => (s.(reports := AppendCompleted(s.reports, e)), ErrNoted(e))
    case ErrNoted(e) => (s, if IsCanceled(e) && CancellationOnly(e) && s.parent.None? then ErrTested(e) else ErrKept(e))
    case ErrTested(e) => (s, if s.block.Some? || s.retry.Some? then Done else ErrKept(e))
    case ErrKept(e) => (s.(firstErr := if s.firstErr.None? then Some(e) else s.firstErr), Returning(e))
    case Returning(e) => (s.(groupErr := if s.groupErr.None? then Some(e) else s.groupErr), Done)
    case RepSeen(r) => (s.(reports := s.reports + [r.Normalized()]), if ShortCircuits(r) then RepAppended(r) else Done)
    case RepAppended(r) => (RecordDecision(s, r), Done)
  }

  /** recordParallelDecision: a correction is remembered, a deny or fault also cancels the group. */
  function RecordDecision(s: State, r: Report): State {
    if r.Normalized().Effective() == CORRECTION then s.(retry := if s.retry.None? then Some(r) else s.retry)
    else if (r.Normalized().Effective() == DENY || r.Normalized().Effective() == FAULT) && s.block.None? then s.(block := Some(r))
    else s
  }

  /** The state after a sequence of events; None when one of them could not happen. */
  function Run(checks: nat, events: seq<Event>): (s: Option<State>)
    ensures s.Some? ==> Sized(s.value) && |s.value.counters| == checks
  {
    if events == [] then Some(Start(checks))
    else
      var before, ev := Run(checks, events[..|events| - 1]), events[|events| - 1];
      if before.Some? && Enabled(before.value, ev) then Some(Apply(before.value, ev)) else None
  }

  predicate Finished(s: State) { forall i :: 0 <= i < |s.counters| ==> s.counters[i].Done? }

  // ----- what every step keeps

  /** A report that no scan can overlook: it refuses and is no observation. */
  predicate Refuses(reports: seq<Report>, r: Report) {
    r.Normalized() in reports && ShortCircuits(r.Normalized())
  }

  /** The error a check's goroutine goes on with, its callback's joined with the context's. */
  function ErrorOf(a: Answer): Option<Err> { WithContext(a.err, a.ctx) }

  /** An error of its own: not a cancellation, or not only one. */
  predicate Independent(e: Err) { !IsCanceled(e) || !CancellationOnly(e) }

  /** A finished check left its mark: an error in the group, a refusal next to its cancellation, or its report. */
  predicate Settled(s: State, a: Answer) {
    if ErrorOf(a).Some? then
      s.groupErr.Some? || (!Independent(ErrorOf(a).value) && (s.block.Some? || s.retry.Some?))
    else if a.rep.None? then true
    else if a.rep.value.action == REDACT then s.groupErr.Some?
    else a.rep.value.Normalized() in s.reports
  }

  /** The error e is the one that answer a must be reported with. */
  predicate Accounts(a: Answer, e: Err) {
    if ErrorOf(a).Some? then e == ErrorOf(a).value
    else a.rep.Some? && a.rep.value.action == REDACT && e == REDACT_ERROR
  }

  /** The answer is a report that this phase allows, without any error. */
  predicate Reported(a: Answer, r: Report) {
    ErrorOf(a).None? && a.rep == Some(r) && r.action != REDACT
  }

  predicate CheckInv(s: State, c: Counter, answer: Option<Answer>) {
    match c
    case Running => answer.None?
    case ErrSeen(e) => answer.Some? && ErrorOf(answer.value) == Some(e)
    case ErrNoted(e) => answer.Some? && ErrorOf(answer.value) == Some(e)
    case ErrTested(e) => answer.Some? && ErrorOf(answer.value) == Some(e) && !Independent(e)
    case ErrKept(e) => answer.Some? && Accounts(answer.value, e)
    case Returning(e) => answer.Some? && Accounts(answer.value, e) && s.firstErr.Some?
    case RepSeen(r) => answer.Some? && Reported(answer.value, r)
    case RepAppended(r) => answer.Some? && Reported(answer.value, r) && ShortCircuits(r) && r.Normalized() in s.reports
    case Done => answer.Some? && Settled(s, answer.value)
  }

  /** A cancelled group has a reason, and a recorded decision has its report among the reports. */
  predicate GroupInv(s: State) {
    && (s.ctxErr.Some? ==> s.block.Some? || s.groupErr.Some? || s.parent.Some?)
    && (s.block.Some? ==> Refuses(s.reports, s.block.value))
    && (s.retry.Some? ==> Refuses(s.reports, s.retry.value))
    && (s.groupErr.Some? ==> s.firstErr.Some?)
  }

  predicate Inv(s: State) {
    && Sized(s)
    && GroupInv(s)
    && forall i :: 0 <= i < |s.counters| ==> CheckInv(s, s.counters[i], s.answers[i])
  }

  /** Nothing recorded is ever taken back. */
  predicate Grows(s: State, t: State) {
    && (forall r :: r in s.reports ==> r in t.reports)
    && (s.block.Some? ==> t.block == s.block)
    && (s.retry.Some? ==> t.retry == s.retry)
    && (s.firstErr.Some? ==> t.firstErr == s.firstErr)
    && (s.groupErr.Some? ==> t.groupErr == s.groupErr)
    && (s.ctxErr.Some? ==> t.ctxErr == s.ctxErr)
    && (s.parent.Some? ==> t.parent == s.parent)
  }

  lemma CheckInvGrows(s: State, t: State, c: Counter, answer: Option<Answer>)
    requires CheckInv(s, c, answer) && Grows(s, t)
    ensures CheckInv(t, c, answer)
  {
  }

  lemma SectionGrows(s: State, c: Counter)
    requires !c.Running? && !c.Done?
    ensures Grows(s, Section(s, c).0)
    ensures Section(s, c).0.counters == s.counters && Section(s, c).0.answers == s.answers
    ensures Section(s, c).0.ctxErr == s.ctxErr && Section(s, c).0.parent == s.parent
  {
  }

  /** Each section of a goroutine keeps the group's invariant and establishes the goroutine's next one. */
  lemma SectionKeeps(s: State, c: Counter, answer: Option<Answer>)
    requires !c.Running? && !c.Done? && GroupInv(s) && CheckInv(s, c, answer)
    ensures var (t, d) := Section(s, c); GroupInv(t) && CheckInv(t, d, answer)
  {
    hide CompletedReport, CancellationOnly, IsCanceled, WithContext;
    match c
    case RepAppended(r) => NormalizedIdempotent(r);
    case RepSeen(r) => NormalizedIdempotent(r);
    case _ =>
  }

  lemma ApplyKeeps(s: State, ev: Event)
    requires Inv(s) && Enabled(s, ev)
    ensures Inv(Apply(s, ev)) && Grows(s, Apply(s, ev))
  {
    var t := Apply(s, ev);
    match ev
    case ParentCancelled(_) => OthersKeep(s, t, |s.counters|);
    case ContextCancelled(_) => OthersKeep(s, t, |s.counters|);
    case Returned(i, rep, err) =>
      OthersKeep(s, t, i);
      LandingKeeps(t, Answer(rep, err, s.ctxErr));
    case Advanced(i) =>
      SectionGrows(s, s.counters[i]);
      SectionKeeps(s, s.counters[i], s.answers[i]);
      var (u, d) := Section(s, s.counters[i]);
      CheckInvGrows(u, t, d, s.answers[i]);
      OthersKeep(s, t, i);
  }

  lemma OthersKeep(s: State, t: State, i: nat)
    requires Inv(s) && Grows(s, t) && Sized(t) && |t.counters| == |s.counters|
    requires forall j :: 0 <= j < |s.counters| && j != i ==> t.counters[j] == s.counters[j] && t.answers[j] == s.answers[j]
    ensures forall j :: 0 <= j < |s.counters| && j != i ==> CheckInv(t, t.counters[j], t.answers[j])
  {
    forall j | 0 <= j < |s.counters| && j != i
      ensures CheckInv(t, t.counters[j], t.answers[j])
    {
      CheckInvGrows(s, t, s.counters[j], s.answers[j]);
    }
  }

  lemma LandingKeeps(t: State, a: Answer)
    ensures CheckInv(t, Landing(a.rep, ErrorOf(a)), Some(a))
  {
  }

  /** The invariant holds in every reachable state, whatever the schedule. */
  lemma {:induction false} RunKeepsInv(checks: nat, events: seq<Event>)
    requires Run(checks, events).Some?
    ensures Inv(Run(checks, events).value)
    decreases |events|
  {
    if events != [] {
      RunKeepsInv(checks, events[..|events| - 1]);
      ApplyKeeps(Run(checks, events[..|events| - 1]).value, events[|events| - 1]);
    }
  }

  // ----- the evidence of every check

  /** What a check leaves among the reports; a forbidden redaction leaves nothing. */
  function Contribution(a: Answer): Option<Report> {
    if ErrorOf(a).None? && a.rep.Some? && a.rep.value.action == REDACT then None else Evidence(a.rep, ErrorOf(a))
  }

  /** Once past its append, a check's contribution is among the reports. */
  predicate Noted(s: State, c: Counter, answer: Option<Answer>) {
    answer.Some? && Contribution(answer.value).Some? && !c.ErrSeen? && !c.RepSeen? ==> Contribution(answer.value).value in s.reports
  }

  predicate AllNoted(s: State)
    requires Sized(s)
  {
    forall i :: 0 <= i < |s.counters| ==> Noted(s, s.counters[i], s.answers[i])
  }

  /** Every report is some check's contribution. */
  ghost predicate Founded(s: State) {
    forall r :: r in s.reports ==> Contributed(s, r)
  }

  ghost predicate Contributed(s: State, r: Report) {
    exists i :: 0 <= i < |s.answers| && s.answers[i].Some? && Contribution(s.answers[i].value) == Some(r)
  }

  lemma SectionNotes(s: State, c: Counter, a: Answer)
    requires !c.Running? && !c.Done? && CheckInv(s, c, Some(a)) && Noted(s, c, Some(a))
    ensures var (t, d) := Section(s, c);
            && Noted(t, d, Some(a))
            && (forall r :: r in t.reports ==> r in s.reports || Contribution(a) == Some(r))
  {
    if c.ErrSeen? {
      AppendIsEvidence(s.reports, a.rep, c.err);
    }
  }

  lemma StepNotes(s: State, ev: Event)
    requires Inv(s) && Enabled(s, ev) && AllNoted(s)
    ensures AllNoted(Apply(s, ev))
    ensures forall r :: r in Apply(s, ev).reports ==>
              r in s.reports || (ev.Advanced? && s.answers[ev.i].Some? && Contribution(s.answers[ev.i].value) == Some(r))
    ensures forall i :: 0 <= i < |s.answers| && s.answers[i].Some? ==> Apply(s, ev).answers[i] == s.answers[i]
  {
    hide Contribution;
    var t := Apply(s, ev);
    if ev.Advanced? {
      var c := s.counters[ev.i];
      SectionGrows(s, c);
      assert CheckInv(s, c, s.answers[ev.i]) && Noted(s, c, s.answers[ev.i]);
      SectionNotes(s, c, s.answers[ev.i].value);
      forall i | 0 <= i < |t.counters|
        ensures Noted(t, t.counters[i], t.answers[i])
      {
        assert Noted(s, s.counters[i], s.answers[i]);
      }
    } else if ev.Returned? {
      ReturnedNotes(s, ev.i, ev.rep, ev.err);
    }
  }

  lemma ReturnedNotes(s: State, i: nat, rep: Option<Report>, err: Option<Err>)
    requires Inv(s) && Enabled(s, Returned(i, rep, err)) && AllNoted(s)
    ensures AllNoted(Apply(s, Returned(i, rep, err)))
    ensures forall k :: 0 <= k < |s.answers| && s.answers[k].Some? ==> Apply(s, Returned(i, rep, err)).answers[k] == s.answers[k]
  {
    var t := Apply(s, Returned(i, rep, err));
    assert CheckInv(s, s.counters[i], s.answers[i]);
    forall k | 0 <= k < |t.counters|
      ensures Noted(t, t.counters[k], t.answers[k])
    {
      assert Noted(s, s.counters[k], s.answers[k]);
    }
  }

  lemma {:induction false} RunNotes(checks: nat, events: seq<Event>)
    requires Run(checks, events).Some?
    ensures AllNoted(Run(checks, events).value) && Founded(Run(checks, events).value)
    decreases |events|
  {
    if events != [] {
      var front, ev := events[..|events| - 1], events[|events| - 1];
      var s, t := Run(checks, front).value, Run(checks, events).value;
      RunKeepsInv(checks, front);
      RunNotes(checks, front);
      StepNotes(s, ev);
      hide Contribution, Apply, Inv;
      forall r | r in t.reports
        ensures Contributed(t, r)
      {
        if r in s.reports {
          var i :| 0 <= i < |s.answers| && s.answers[i].Some? && Contribution(s.answers[i].value) == Some(r);
          assert t.answers[i] == s.answers[i];
        } else {
          assert t.answers[ev.i] == s.answers[ev.i];
        }
      }
    }
  }

  /**
   * When all checks are done the phase's reports are exactly their contributions, in every schedule: what each
   * completed check reported and what each failed check's error attests, and never a failed callback's own report.
   */
  lemma ReportsAreContributions(checks: nat, events: seq<Event>, r: Report)
    requires var s := Run(checks, events); s.Some? && Finished(s.value)
    ensures r in Run(checks, events).value.reports <==> Contributed(Run(checks, events).value, r)
  {
    RunNotes(checks, events);
    var s := Run(checks, events).value;
    if Contributed(s, r) {
      var i :| 0 <= i < |s.answers| && s.answers[i].Some? && Contribution(s.answers[i].value) == Some(r);
      assert Noted(s, s.counters[i], s.answers[i]);
    }
  }

  /** What a check has put among the reports by now: nothing until its append, then its contribution. */
  function Posted(c: Counter, answer: Option<Answer>): multiset<Report> {
    if answer.Some? && Contribution(answer.value).Some? && !c.ErrSeen? && !c.RepSeen? then multiset{Contribution(answer.value).value}
    else multiset{}
  }

  function PostedBy(counters: seq<Counter>, answers: seq<Option<Answer>>): multiset<Report>
    requires |counters| == |answers|
  {
    if counters == [] then multiset{}
    else
      var n := |counters| - 1;
      PostedBy(counters[..n], answers[..n]) + Posted(counters[n], answers[n])
  }

  /** The contributions of all checks, each counted once. */
  function Contributions(answers: seq<Option<Answer>>): multiset<Report> {
    if answers == [] then multiset{}
    else
      var n := |answers| - 1;
      Contributions(answers[..n])
      + (if answers[n].Some? && Contribution(answers[n].value).Some? then multiset{Contribution(answers[n].value).value} else multiset{})
  }

  lemma {:induction false} PostedUpdate(counters: seq<Counter>, answers: seq<Option<Answer>>, i: nat, c: Counter, a: Option<Answer>)
    requires i < |counters| == |answers|
    ensures PostedBy(counters[i := c], answers[i := a]) + Posted(counters[i], answers[i]) == PostedBy(counters, answers) + Posted(c, a)
    decreases |counters|
  {
    hide Posted;
    var n := |counters| - 1;
    var before, last := PostedBy(counters[..n], answers[..n]), Posted(counters[n], answers[n]);
    if i < n {
      assert counters[i := c][..n] == counters[..n][i := c] && answers[i := a][..n] == answers[..n][i := a];
      PostedUpdate(counters[..n], answers[..n], i, c, a);
      SwapLast(PostedBy(counters[..n][i := c], answers[..n][i := a]), last, Posted(counters[i], answers[i]));
      SwapLast(before, last, Posted(c, a));
    } else {
      assert counters[i := c][..n] == counters[..n] && answers[i := a][..n] == answers[..n];
      SwapLast(before, Posted(c, a), last);
    }
  }

  lemma Cancel<T>(a: multiset<T>, b: multiset<T>, c: multiset<T>)
    requires a + c == b + c
    ensures a == b
  {
    forall x
      ensures a[x] == b[x]
    {
      assert (a + c)[x] == (b + c)[x];
    }
  }

  lemma SwapLast<T>(a: multiset<T>, b: multiset<T>, c: multiset<T>)
    ensures a + b + c == a + c + b
  {
  }

  lemma SectionPosts(s: State, c: Counter, a: Answer)
    requires !c.Running? && !c.Done? && CheckInv(s, c, Some(a))
    ensures var (t, d) := Section(s, c); multiset(t.reports) + Posted(c, Some(a)) == multiset(s.reports) + Posted(d, Some(a))
  {
    if c.ErrSeen? {
      ErrorPosts(s, c.err, a);
    } else if c.RepSeen? {
      ReportPosts(s, c.rep, a);
    } else {
      OthersPost(s, c, a);
    }
  }

  lemma ErrorPosts(s: State, e: Err, a: Answer)
    requires ErrorOf(a) == Some(e)
    ensures var (t, d) := Section(s, ErrSeen(e));
            multiset(t.reports) == multiset(s.reports) + Posted(d, Some(a)) && Posted(ErrSeen(e), Some(a)) == multiset{}
  {
    hide Evidence, AppendCompleted;
    AppendIsEvidence(s.reports, a.rep, e);
  }

  lemma ReportPosts(s: State, r: Report, a: Answer)
    requires Reported(a, r)
    ensures var (t, d) := Section(s, RepSeen(r));
            multiset(t.reports) == multiset(s.reports) + Posted(d, Some(a)) && Posted(RepSeen(r), Some(a)) == multiset{}
  {
    hide Contribution, ShortCircuits, Report.Normalized;
    ContributionIs(a);
  }

  lemma OthersPost(s: State, c: Counter, a: Answer)
    requires !c.Running? && !c.Done? && !c.ErrSeen? && !c.RepSeen?
    ensures Section(s, c).0.reports == s.reports && Posted(Section(s, c).1, Some(a)) == Posted(c, Some(a))
  {
    hide Contribution, ShortCircuits, CancellationOnly, IsCanceled, RecordDecision;
    if c.RepAppended? {
      RecordKeepsReports(s, c.rep);
    }
  }

  lemma RecordKeepsReports(s: State, r: Report)
    ensures RecordDecision(s, r).reports == s.reports
  {
  }

  lemma ContributionIs(a: Answer)
    ensures ErrorOf(a).None? && a.rep.Some? && a.rep.value.action != REDACT ==> Contribution(a) == Some(a.rep.value.Normalized())
  {
  }

  lemma LandingPosts(a: Answer)
    ensures Posted(Running, None) == Posted(Landing(a.rep, ErrorOf(a)), Some(a)) == multiset{}
  {
  }

  predicate Balanced(s: State)
    requires Sized(s)
  {
    multiset(s.reports) == PostedBy(s.counters, s.answers)
  }

  lemma StepBalances(s: State, ev: Event)
    requires Inv(s) && Enabled(s, ev) && Balanced(s)
    ensures Balanced(Apply(s, ev))
  {
    hide Contribution, Posted, PostedBy, Section, Landing;
    if ev.Advanced? {
      var i, c := ev.i, s.counters[ev.i];
      assert CheckInv(s, c, s.answers[i]);
      SectionGrows(s, c);
      SectionPosts(s, c, s.answers[i].value);
      PostedUpdate(s.counters, s.answers, i, Section(s, c).1, s.answers[i]);
      assert s.answers[i := s.answers[i]] == s.answers;
      var t := Apply(s, ev);
      Cancel(multiset(t.reports), PostedBy(t.counters, t.answers), Posted(c, s.answers[i]));
    } else if ev.Returned? {
      var a := Answer(ev.rep, ev.err, s.ctxErr);
      assert CheckInv(s, s.counters[ev.i], s.answers[ev.i]);
      LandingPosts(a);
      assert s.counters[ev.i] == Running && s.answers[ev.i] == None;
      PostedUpdate(s.counters, s.answers, ev.i, Landing(ev.rep, ErrorOf(a)), Some(a));
      var t := Apply(s, ev);
      Cancel(PostedBy(t.counters, t.answers), PostedBy(s.counters, s.answers), multiset{});
    }
  }

  lemma {:induction false} RunBalances(checks: nat, events: seq<Event>)
    requires Run(checks, events).Some?
    ensures Balanced(Run(checks, events).value)
    decreases |events|
  {
    if events == [] {
      NothingPosted(checks);
    } else {
      hide Apply, Inv, Balanced;
      RunKeepsInv(checks, events[..|events| - 1]);
      RunBalances(checks, events[..|events| - 1]);
      StepBalances(Run(checks, events[..|events| - 1]).value, events[|events| - 1]);
    }
  }

  lemma {:induction false} NothingPosted(checks: nat)
    ensures Balanced(Start(checks))
  {
    if checks > 0 {
      NothingPosted(checks - 1);
      var s, before := Start(checks), Start(checks - 1);
      assert s.counters[..checks - 1] == before.counters && s.answers[..checks - 1] == before.answers;
    }
  }

  /** Conservation: a finished phase's reports are its checks' contributions, each exactly once, in every schedule. */
  lemma ReportsAreExactly(checks: nat, events: seq<Event>)
    requires var s := Run(checks, events); s.Some? && Finished(s.value)
    ensures multiset(Run(checks, events).value.reports) == Contributions(Run(checks, events).value.answers)
  {
    var s := Run(checks, events).value;
    RunBalances(checks, events);
    AllPosted(s.counters, s.answers);
  }

  lemma {:induction false} AllPosted(counters: seq<Counter>, answers: seq<Option<Answer>>)
    requires |counters| == |answers| && forall i :: 0 <= i < |counters| ==> counters[i].Done?
    ensures PostedBy(counters, answers) == Contributions(answers)
  {
    hide Contribution;
    if counters != [] {
      AllPosted(counters[..|counters| - 1], answers[..|answers| - 1]);
    }
  }

  // ----- where the phase's errors come from

  /** Some check's answer has to be reported with this error. */
  ghost predicate ErrorFrom(s: State, e: Option<Err>) {
    e.Some? ==> exists i :: 0 <= i < |s.answers| && s.answers[i].Some? && Accounts(s.answers[i].value, e.value)
  }

  lemma ErrorsStay(s: State, ev: Event, e: Option<Err>)
    requires Inv(s) && Enabled(s, ev) && AllNoted(s) && ErrorFrom(s, e)
    ensures ErrorFrom(Apply(s, ev), e)
  {
    StepNotes(s, ev);
    hide Apply, Inv, Enabled, AllNoted, Accounts;
    if e.Some? {
      var i :| 0 <= i < |s.answers| && s.answers[i].Some? && Accounts(s.answers[i].value, e.value);
      assert Apply(s, ev).answers[i] == s.answers[i];
    }
  }

  lemma SectionErrors(s: State, ev: Event)
    requires Inv(s) && Enabled(s, ev)
    ensures var t := Apply(s, ev);
            && (t.firstErr == s.firstErr || ErrorFrom(s, t.firstErr))
            && (t.groupErr == s.groupErr || ErrorFrom(s, t.groupErr))
  {
    if ev.Advanced? {
      assert CheckInv(s, s.counters[ev.i], s.answers[ev.i]);
    }
  }

  /** The errors kept by the phase are those of its checks, in every schedule. */
  lemma {:induction false} ErrorsAreAnswers(checks: nat, events: seq<Event>)
    requires Run(checks, events).Some?
    ensures var s := Run(checks, events).value; ErrorFrom(s, s.firstErr) && ErrorFrom(s, s.groupErr)
    decreases |events|
  {
    hide Apply, ErrorFrom;
    if events != [] {
      var front, ev := events[..|events| - 1], events[|events| - 1];
      var s, t := Run(checks, front).value, Run(checks, events).value;
      RunKeepsInv(checks, front);
      RunNotes(checks, front);
      ErrorsAreAnswers(checks, front);
      SectionErrors(s, ev);
      ErrorsStay(s, ev, t.firstErr);
      ErrorsStay(s, ev, t.groupErr);
    } else {
      NoErrorAtStart(checks);
    }
  }

  lemma NoErrorAtStart(checks: nat)
    ensures ErrorFrom(Start(checks), Start(checks).firstErr) && ErrorFrom(Start(checks), Start(checks).groupErr)
  {
  }

  // ----- how the phase ends

  /** The error that Run faults with after Wait, if any: the group's, the first kept one, or the parent's. */
  function FinalError(s: State): Option<Err> {
    if s.groupErr.Some? then s.groupErr else if s.firstErr.Some? then s.firstErr else s.parent
  }

  /** A check that ran to completion and returned nil, a pass or an observation. */
  predicate Benign(a: Answer) {
    && a.err.None? && a.ctx.None?
    && (a.rep.Some? ==> a.rep.value.action != REDACT && !ShortCircuits(a.rep.value))
  }

  /** A refusing report decides the run, whatever else was reported. */
  lemma RefusalDecides(reports: seq<Report>, r: Report)
    requires r in reports && ShortCircuits(r)
    ensures Decide(reports).Effective() != NONE
  {
    DecideIsStrongest(reports);
  }

  /**
   * Fail-closed: if the phase ends without an error and its reports decide nothing, then every check ran to
   * completion and was benign. No schedule and no cancellation can lose a deny, a correction or a fault.
   */
  lemma AllowedOnlyIfAllBenign(checks: nat, events: seq<Event>, reports: seq<Report>)
    requires var s := Run(checks, events); s.Some? && Finished(s.value) && FinalError(s.value).None?
    requires forall r :: r in Run(checks, events).value.reports ==> r in reports
    requires Decide(reports).Effective() == NONE
    ensures var s := Run(checks, events).value;
            forall i :: 0 <= i < checks ==> s.answers[i].Some? && Benign(s.answers[i].value)
  {
    RunKeepsInv(checks, events);
    var s := Run(checks, events).value;
    forall i | 0 <= i < checks
      ensures s.answers[i].Some? && Benign(s.answers[i].value)
    {
      assert CheckInv(s, s.counters[i], s.answers[i]);
      BenignUnlessRefused(s, s.answers[i].value, reports);
    }
  }

  lemma BenignUnlessRefused(s: State, a: Answer, reports: seq<Report>)
    requires GroupInv(s) && Settled(s, a) && FinalError(s).None?
    requires forall r :: r in s.reports ==> r in reports
    requires Decide(reports).Effective() == NONE
    ensures Benign(a)
  {
    if s.block.Some? {
      RefusalDecides(reports, s.block.value.Normalized());
    }
    if s.retry.Some? {
      RefusalDecides(reports, s.retry.value.Normalized());
    }
    if ErrorOf(a).None? && a.rep.Some? && a.rep.value.action != REDACT && ShortCircuits(a.rep.value) {
      NormalizedIdempotent(a.rep.value);
      RefusalDecides(reports, a.rep.value.Normalized());
    }
  }

  /** An independent error faults the run in every schedule, even after a sibling has denied. */
  lemma IndependentFaults(checks: nat, events: seq<Event>, i: nat)
    requires var s := Run(checks, events); s.Some? && Finished(s.value)
    requires i < checks
    requires var a := Run(checks, events).value.answers[i]; a.Some? && ErrorOf(a.value).Some? && Independent(ErrorOf(a.value).value)
    ensures Run(checks, events).value.groupErr.Some? && FinalError(Run(checks, events).value).Some?
  {
    hide Independent;
    RunKeepsInv(checks, events);
    var s := Run(checks, events).value;
    assert CheckInv(s, s.counters[i], s.answers[i]);
  }

  /** In particular a failure that is not just an end of a context, whatever the context's error it is joined with. */
  lemma FailureAlwaysFaults(checks: nat, events: seq<Event>, i: nat)
    requires var s := Run(checks, events); s.Some? && Finished(s.value)
    requires i < checks
    requires var a := Run(checks, events).value.answers[i]; a.Some? && a.value.err.Some? && !CancellationOnly(a.value.err.value)
    ensures Run(checks, events).value.groupErr.Some? && FinalError(Run(checks, events).value).Some?
  {
    ContextErrorsOnly(checks, events);
    var a := Run(checks, events).value.answers[i].value;
    if a.ctx.Some? {
      JoinKeepsFailure(a.err.value, a.ctx.value);
    }
    IndependentFaults(checks, events, i);
  }

  /** Where check i stands when the parent has ended before its error was looked at: no error of it is excused. */
  predicate Unexcused(s: State, i: nat)
    requires Sized(s)
  {
    && s.parent.Some? && i < |s.counters| && !s.counters[i].ErrTested?
    && (s.counters[i].Done? && s.answers[i].Some? && ErrorOf(s.answers[i].value).Some? ==> s.groupErr.Some?)
  }

  lemma UnexcusedStep(s: State, ev: Event, i: nat)
    requires Inv(s) && Enabled(s, ev) && Unexcused(s, i)
    ensures Unexcused(Apply(s, ev), i)
  {
    hide IsCanceled, CancellationOnly, AppendCompleted, Settled, Independent;
    assert CheckInv(s, s.counters[i], s.answers[i]);
    if ev.Advanced? {
      SectionGrows(s, s.counters[ev.i]);
    }
  }

  /** Siblings' decisions excuse cancellations only while the parent lives: afterwards every error is returned. */
  lemma {:induction false} NoExcuseAfterParent(checks: nat, front: seq<Event>, rest: seq<Event>, i: nat)
    requires var s := Run(checks, front); s.Some? && Unexcused(s.value, i)
    requires Run(checks, front + rest).Some?
    ensures Unexcused(Run(checks, front + rest).value, i)
    decreases |rest|
  {
    hide Unexcused, Apply, Inv, Enabled;
    if rest == [] {
      assert front + rest == front;
    } else {
      var n := |rest| - 1;
      assert (front + rest)[..|front + rest| - 1] == front + rest[..n];
      NoExcuseAfterParent(checks, front, rest[..n], i);
      RunKeepsInv(checks, front + rest[..n]);
      UnexcusedStep(Run(checks, front + rest[..n]).value, rest[n], i);
    }
  }

  /** The contexts only ever report cancellation or a deadline. */
  lemma {:induction false} ContextErrorsOnly(checks: nat, events: seq<Event>)
    requires Run(checks, events).Some?
    ensures ContextErrors(Run(checks, events).value)
    decreases |events|
  {
    if events != [] {
      hide ContextErrors, Apply, Enabled;
      ContextErrorsOnly(checks, events[..|events| - 1]);
      ContextErrorsStep(Run(checks, events[..|events| - 1]).value, events[|events| - 1]);
    } else {
      assert Run(checks, events) == Some(Start(checks));
    }
  }

  predicate ContextErrors(s: State) {
    && (s.parent.Some? ==> IsContextError(s.parent.value))
    && (s.ctxErr.Some? ==> IsContextError(s.ctxErr.value))
    && (s.parent.None? && s.ctxErr.Some? ==> s.ctxErr.value == Canceled)
    && forall i :: 0 <= i < |s.answers| && s.answers[i].Some? ==> ContextSeen(s, s.answers[i].value)
  }

  predicate ContextSeen(s: State, a: Answer) {
    a.ctx.Some? ==> IsContextError(a.ctx.value) && (s.parent.None? ==> a.ctx.value == Canceled)
  }

  lemma ContextErrorsStep(s: State, ev: Event)
    requires Sized(s) && Enabled(s, ev) && ContextErrors(s)
    ensures ContextErrors(Apply(s, ev))
  {
    var t := Apply(s, ev);
    if ev.Advanced? {
      SectionGrows(s, s.counters[ev.i]);
    }
    hide Section;
    forall i | 0 <= i < |t.answers| && t.answers[i].Some?
      ensures ContextSeen(t, t.answers[i].value)
    {
      if !(ev.Returned? && ev.i == i) {
        assert t.answers[i] == s.answers[i];
        assert ContextSeen(s, s.answers[i].value);
      }
    }
  }

  // ----- cancellations that only follow a sibling's decision

  /** A check that failed, if at all, with nothing but a cancellation that it met in an already cancelled group. */
  predicate Obedient(a: Answer) {
    && (a.ctx.None? ==> a.err.None?)
    && (a.err.Some? ==> CancellationOnly(a.err.value))
    && (ErrorOf(a).None? && a.rep.Some? ==> a.rep.value.action != REDACT)
  }

  predicate AllObedient(s: State) {
    s.parent.None? && forall i :: 0 <= i < |s.answers| && s.answers[i].Some? ==> Obedient(s.answers[i].value)
  }

  /** No error has been kept, and the group is only cancelled by a recorded block. */
  predicate Calm(s: State) {
    && s.firstErr.None? && s.groupErr.None?
    && (s.ctxErr.Some? ==> s.block.Some?)
    && forall i :: 0 <= i < |s.counters| ==> CalmCounter(s, s.counters[i])
  }

  predicate CalmCounter(s: State, c: Counter) {
    match c
    case ErrSeen(e) => IsCanceled(e) && CancellationOnly(e) && s.block.Some?
    case ErrNoted(e) => IsCanceled(e) && CancellationOnly(e) && s.block.Some?
    case ErrTested(e) => s.block.Some?
    case ErrKept(_) => false
    case Returning(_) => false
    case _ => true
  }

  lemma ObedientBefore(s: State, ev: Event)
    requires Sized(s) && Inv(s) && Enabled(s, ev) && AllObedient(Apply(s, ev))
    ensures AllObedient(s)
  {
    var t := Apply(s, ev);
    if ev.Advanced? {
      SectionGrows(s, s.counters[ev.i]);
    }
    forall i | 0 <= i < |s.answers| && s.answers[i].Some?
      ensures Obedient(s.answers[i].value)
    {
      assert CheckInv(s, s.counters[i], s.answers[i]);
      assert t.answers[i] == s.answers[i];
    }
  }

  lemma CalmStep(s: State, ev: Event)
    requires Inv(s) && Calm(s) && Enabled(s, ev) && AllObedient(Apply(s, ev))
    requires s.ctxErr.Some? ==> s.ctxErr.value == Canceled
    ensures Calm(Apply(s, ev))
  {
    hide IsCanceled, CancellationOnly, AppendCompleted, GroupInv, CheckInv;
    var t := Apply(s, ev);
    match ev
    case Returned(i, rep, err) =>
      assert t.answers[i] == Some(Answer(rep, err, s.ctxErr)) && Obedient(t.answers[i].value);
      CalmLanding(s, rep, err);
      CalmOthers(s, t, i);
    case Advanced(i) =>
      assert CalmCounter(s, s.counters[i]);
      CalmSection(s, s.counters[i]);
      CalmOthers(s, t, i);
    case ContextCancelled(_) =>
      CalmOthers(s, t, |s.counters|);
    case ParentCancelled(_) =>
      assert false; // an obedient run's parent stays live
  }

  lemma CalmOthers(s: State, t: State, i: nat)
    requires Calm(s) && |t.counters| == |s.counters| && (s.block.Some? ==> t.block.Some?)
    requires forall k :: 0 <= k < |s.counters| && k != i ==> t.counters[k] == s.counters[k]
    ensures forall k :: 0 <= k < |s.counters| && k != i ==> CalmCounter(t, t.counters[k])
  {
    hide IsCanceled, CancellationOnly;
    forall k | 0 <= k < |s.counters| && k != i
      ensures CalmCounter(t, t.counters[k])
    {
      assert CalmCounter(s, s.counters[k]);
    }
  }

  /** An obedient callback lands calmly: its error, if any, is a cancellation met after a recorded block. */
  lemma CalmLanding(s: State, rep: Option<Report>, err: Option<Err>)
    requires Obedient(Answer(rep, err, s.ctxErr)) && (s.ctxErr.Some? ==> s.block.Some? && s.ctxErr.value == Canceled)
    ensures CalmCounter(s, Landing(rep, WithContext(err, s.ctxErr)))
  {
    if s.ctxErr.Some? && err.Some? {
      JoinKeepsFailure(err.value, s.ctxErr.value);
    } else if s.ctxErr.Some? {
      JoinKeepsFailure(Canceled, s.ctxErr.value);
    }
  }

  lemma CalmSection(s: State, c: Counter)
    requires !c.Running? && !c.Done? && CalmCounter(s, c) && s.parent.None? && s.firstErr.None? && s.groupErr.None?
    requires s.ctxErr.Some? ==> s.block.Some?
    ensures var (t, d) := Section(s, c);
            && CalmCounter(t, d) && t.firstErr.None? && t.groupErr.None?
            && (t.ctxErr.Some? ==> t.block.Some?) && (s.block.Some? ==> t.block.Some?)
  {
    hide IsCanceled, CancellationOnly, AppendCompleted;
  }

  lemma {:induction false} ObedientRunsAreCalm(checks: nat, events: seq<Event>)
    requires Run(checks, events).Some? && AllObedient(Run(checks, events).value)
    ensures Calm(Run(checks, events).value)
    decreases |events|
  {
    if events != [] {
      var front, ev := events[..|events| - 1], events[|events| - 1];
      var s := Run(checks, front).value;
      RunKeepsInv(checks, front);
      ContextErrorsOnly(checks, front);
      ObedientBefore(s, ev);
      ObedientRunsAreCalm(checks, front);
      CalmStep(s, ev);
    }
  }

  /**
   * With a live parent, cancellations that checks met after a sibling's deny never become a fault: the phase
   * ends without an error, and if any check was cancelled the deny is among its reports and decides the run.
   */
  lemma SiblingDenyIsNoFault(checks: nat, events: seq<Event>, reports: seq<Report>)
    requires var s := Run(checks, events); s.Some? && Finished(s.value) && AllObedient(s.value)
    requires forall r :: r in Run(checks, events).value.reports ==> r in reports
    ensures FinalError(Run(checks, events).value).None?
    ensures var s := Run(checks, events).value;
            (exists i :: 0 <= i < checks && s.answers[i].Some? && s.answers[i].value.ctx.Some?) ==>
              && s.block.Some? && s.block.value.Normalized() in reports
              && (Decide(reports).Effective() == DENY || Decide(reports).Effective() == FAULT)
              && (Decide(reports).Effective() == FAULT ==> exists r :: r in reports && !r.IsObservation() && r.Effective() == FAULT)
  {
    ObedientRunsAreCalm(checks, events);
    RunKeepsInv(checks, events);
    BlockDecides(checks, events);
    var s := Run(checks, events).value;
    if i :| 0 <= i < checks && s.answers[i].Some? && s.answers[i].value.ctx.Some? {
      CancelledMeansBlocked(checks, events, i);
      DecideIsStrongest(reports);
      NormalizedIdempotent(s.block.value);
      NormalizedIdempotent(Decide(reports));
      if Decide(reports).Effective() == FAULT {
        DecidedFault(reports);
      }
    }
  }

  lemma DecidedFault(reports: seq<Report>)
    requires Decide(reports).Effective() == FAULT
    ensures exists r :: r in reports && !r.IsObservation() && r.Effective() == FAULT
  {
    SelectedIsStrongest(reports);
    NormalizedIdempotent(Selected(reports).value);
  }

  /** A recorded block is a deny or a fault. */
  lemma {:induction false} BlockDecides(checks: nat, events: seq<Event>)
    requires Run(checks, events).Some?
    ensures var s := Run(checks, events).value;
            s.block.Some? ==> s.block.value.Effective() == DENY || s.block.value.Effective() == FAULT
    decreases |events|
  {
    if events != [] {
      var front, ev := events[..|events| - 1], events[|events| - 1];
      BlockDecides(checks, front);
      var s := Run(checks, front).value;
      if ev.Advanced? && s.counters[ev.i].RepAppended? {
        NormalizedIdempotent(s.counters[ev.i].rep);
      }
    }
  }

  /** A check that saw its context cancelled did so after the group was cancelled, and it stays so. */
  lemma CancelledMeansBlocked(checks: nat, events: seq<Event>, i: nat)
    requires Run(checks, events).Some? && i < checks && AllObedient(Run(checks, events).value)
    requires var a := Run(checks, events).value.answers[i]; a.Some? && a.value.ctx.Some?
    ensures Run(checks, events).value.ctxErr.Some? && Run(checks, events).value.block.Some?
  {
    ObedientRunsAreCalm(checks, events);
    ContextSeenIsSet(checks, events, i);
  }

  lemma {:induction false} ContextSeenIsSet(checks: nat, events: seq<Event>, i: nat)
    requires Run(checks, events).Some? && i < checks
    requires var a := Run(checks, events).value.answers[i]; a.Some? && a.value.ctx.Some?
    ensures Run(checks, events).value.ctxErr.Some?
    decreases |events|
  {
    if events != [] {
      var front, ev := events[..|events| - 1], events[|events| - 1];
      var s := Run(checks, front).value;
      if ev.Advanced? {
        SectionGrows(s, s.counters[ev.i]);
      }
      if !(ev.Returned? && ev.i == i) {
        ContextSeenIsSet(checks, front, i);
      }
    }
  }

  // ----- nothing is refused without a reason

  predicate AllBenign(s: State) {
    s.parent.None? && forall i :: 0 <= i < |s.answers| && s.answers[i].Some? ==> Benign(s.answers[i].value)
  }

  predicate Undisturbed(s: State) {
    && s.firstErr.None? && s.groupErr.None? && s.block.None? && s.retry.None? && s.ctxErr.None?
    && (forall r :: r in s.reports ==> !ShortCircuits(r))
    && forall i :: 0 <= i < |s.counters| ==>
         s.counters[i].Running? || s.counters[i].Done? || (s.counters[i].RepSeen? && !ShortCircuits(s.counters[i].rep))
  }

  lemma UndisturbedStep(s: State, ev: Event)
    requires Inv(s) && Undisturbed(s) && Enabled(s, ev) && AllBenign(Apply(s, ev))
    ensures Undisturbed(Apply(s, ev)) && AllBenign(s)
  {
    var t := Apply(s, ev);
    forall i | 0 <= i < |s.answers| && s.answers[i].Some?
      ensures Benign(s.answers[i].value)
    {
      assert CheckInv(s, s.counters[i], s.answers[i]);
      assert t.answers[i] == s.answers[i];
    }
    match ev
    case Returned(i, rep, err) =>
      assert t.answers[i] == Some(Answer(rep, err, s.ctxErr)) && Benign(t.answers[i].value);
    case Advanced(i) =>
      NormalizedIdempotent(s.counters[i].rep);
    case _ =>
  }

  lemma {:induction false} BenignRunsAreUndisturbed(checks: nat, events: seq<Event>)
    requires Run(checks, events).Some? && AllBenign(Run(checks, events).value)
    ensures Undisturbed(Run(checks, events).value)
    decreases |events|
  {
    if events != [] {
      var front, ev := events[..|events| - 1], events[|events| - 1];
      var s := Run(checks, front).value;
      RunKeepsInv(checks, front);
      BenignBefore(s, ev);
      BenignRunsAreUndisturbed(checks, front);
      UndisturbedStep(s, ev);
    }
  }

  lemma BenignBefore(s: State, ev: Event)
    requires Inv(s) && Enabled(s, ev) && AllBenign(Apply(s, ev))
    ensures AllBenign(s)
  {
    var t := Apply(s, ev);
    if ev.Advanced? {
      SectionGrows(s, s.counters[ev.i]);
    }
    forall i | 0 <= i < |s.answers| && s.answers[i].Some?
      ensures Benign(s.answers[i].value)
    {
      assert CheckInv(s, s.counters[i], s.answers[i]);
      assert t.answers[i] == s.answers[i];
    }
  }
}
