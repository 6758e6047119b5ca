/** Pipeline.Run: sequential checks, scoped policies, then the parallel phase (pipeline.go). */
module Pipelines {
  import opened Wrappers
  import opened Sequences
  import opened Reports
  import opened Errors
  import opened GuardedOutput
  import PP = ParallelPhase

  /** What a check answers; a panic arrives as an error. */
  datatype Call<T> = Call(out: T, rep: Option<Report>, err: Option<Err>)

  type Check<!T> = T -> Call<T>

  /** What the caller's context reports at each time it is looked at. */
  type Clock = nat -> Option<Err>

  datatype Pipeline<!T> = Pipeline(sequential: seq<Check<T>>, policies: seq<Check<T>>, parallel: nat,
                                   userChannel: bool, zero: T)

  datatype PhaseEnd<T> =
    | Goes(value: T, seen: seq<Report>)                   // on to the next phase
    | Aborts(value: T, seen: seq<Report>, cause: Err)     // validatorFaultResult
    | Stops(value: T, seen: seq<Report>)                  // a refusal: finalizeResult

  function Note(seen: seq<Report>, rep: Option<Report>): seq<Report> {
    if rep.Some? then seen + [rep.value.Normalized()] else seen
  }

  predicate Refused(rep: Option<Report>) { rep.Some? && PP.ShortCircuits(rep.value) }

  /** One phase of checks run one after the other; the context is looked at before and after each. */
  function Phase<T>(checks: seq<Check<T>>, ctx: Clock, tick: nat, value: T, seen: seq<Report>): PhaseEnd<T>
    decreases |checks|
  {
    if checks == [] then Goes(value, seen)
    else if ctx(tick).Some? then Aborts(value, seen, ctx(tick).value)
    else
      var c := checks[0](value);
      var err := WithContext(c.err, ctx(tick + 1));
      if err.Some? then Aborts(value, AppendCompleted(seen, err.value), err.value)
      else if Refused(c.rep) then Stops(c.out, Note(seen, c.rep))
      else Phase(checks[1..], ctx, tick + 2, c.out, Note(seen, c.rep))
  }

  /** The loops of the first two phases. */
  method RunPhase<T>(checks: seq<Check<T>>, ctx: Clock, start: nat, input: T, reports: seq<Report>) returns (end: PhaseEnd<T>)
    ensures end == Phase(checks, ctx, start, input, reports)
  {
    var current, seen, tick := input, reports, start;
    for i := 0 to |checks|
      invariant tick == start + 2 * i
      invariant Phase(checks, ctx, start, input, reports) == Phase(checks[i..], ctx, tick, current, seen)
    {
      var check := checks[i];
      assert checks[i..][0] == check && checks[i..][1..] == checks[i + 1..];
      var before := ctx(tick);
      if before.Some? {
        return Aborts(current, seen, before.value);
      }
      var c := check(current);
      var err := WithContext(c.err, ctx(tick + 1));
      if err.Some? {
        return Aborts(current, AppendCompleted(seen, err.value), err.value);
      }
      if c.rep.Some? {
        seen := seen + [c.rep.value.Normalized()];
      }
      if c.rep.Some? && PP.ShortCircuits(c.rep.value) {
        return Stops(c.out, seen);
      }
      current, tick := c.out, tick + 2;
    }
    return Goes(current, seen);
  }

  // ----- results

  /** policyDecisionReport: the decision with the run's kind. */
  function PolicyReport(reports: seq<Report>): Report {
    var d := Decide(reports);
    if WorstKind(reports) != SAFE_TEXT || d.payloadKind == SAFE_TEXT then d.(payloadKind := WorstKind(reports)) else d
  }

  /** validatorFaultResult. */
  function FaultResult<T>(value: T, seen: seq<Report>): RunReturn<T> {
    var reports := FaultReports(seen);
    RunReturn(value, reports, WorstKind(reports), FaultError(FailureDecision(Some(PolicyReport(reports).Normalized()))))
  }

  /** A user channel refuses what is not plain text. */
  function ChannelReports(userChannel: bool, seen: seq<Report>): seq<Report> {
    if userChannel && WorstKind(seen) != SAFE_TEXT
    then seen + [Report(BLOCK, NONE, WorstKind(seen), false, false, false, true).Normalized()]
    else seen
  }

  /** finalizeResult. */
  method FinalizeResult<T>(p: Pipeline<T>, output: T, seen: seq<Report>) returns (r: RunReturn<T>)
    ensures r == FinalResult(p, output, seen)
  {
    var kind := AggregatePayloadKind(seen);
    var out, reports := output, seen;
    if p.userChannel && kind != SAFE_TEXT {
      reports := reports + [Report(BLOCK, NONE, kind, false, false, false, true).Normalized()];
      out := p.zero;
    }
    if p.userChannel {
      var rep := RunDecision(reports);
      if rep.Effective() == DENY || rep.Effective() == FAULT {
        out := p.zero;
      }
    }
    var outputKind := AggregatePayloadKind(reports);
    return RunReturn(out, reports, outputKind, NoError);
  }

  function FinalResult<T>(p: Pipeline<T>, output: T, seen: seq<Report>): RunReturn<T> {
    var reports := ChannelReports(p.userChannel, seen);
    var withheld := p.userChannel
                    && (WorstKind(seen) != SAFE_TEXT || Decide(reports).Effective() == DENY || Decide(reports).Effective() == FAULT);
    RunReturn(if withheld then p.zero else output, reports, WorstKind(reports), NoError)
  }

  // ----- the run

  /** What the parallel phase left behind, as its events unfolded. */
  ghost predicate EndOfParallel<T>(p: Pipeline<T>, events: seq<PP.Event>, end: PP.State) {
    PP.Run(p.parallel, events) == Some(end) && PP.Finished(end)
  }

  /** How a run ends: in a fault with its cause, or to be finalized. */
  datatype Ending<T> = Faulting(value: T, seen: seq<Report>, cause: Err) | Finishing(value: T, seen: seq<Report>)

  /** Run up to its end, given the scope check's error and how the goroutines of the last phase ended. */
  function Ended<T>(p: Pipeline<T>, scope: Option<Err>, ctx: Clock, input: T, end: PP.State): Ending<T> {
    if scope.Some? then Faulting(input, [], scope.value)
    else
      match Phase(p.sequential, ctx, 0, input, [])
      case Aborts(value, seen, cause) => Faulting(value, seen, cause)
      case Stops(value, seen) => Finishing(value, seen)
      case Goes(value, seen) =>
        match Phase(p.policies, ctx, 2 * |p.sequential|, value, seen)
        case Aborts(v, s, cause) => Faulting(v, s, cause)
        case Stops(v, s) => Finishing(v, s)
        case Goes(v, s) =>
          if PP.FinalError(end).Some? then Faulting(v, s + end.reports, PP.FinalError(end).value) else Finishing(v, s + end.reports)
  }

  /** The result of a run, and beside it the error tree it returns. */
  function RunResult<T>(p: Pipeline<T>, scope: Option<Err>, ctx: Clock, input: T, end: PP.State): RunReturn<T> {
    match Ended(p, scope, ctx, input, end)
    case Faulting(value, seen, _) => FaultResult(value, seen)
    case Finishing(value, seen) => FinalResult(p, value, seen)
  }

  function RunError<T>(p: Pipeline<T>, scope: Option<Err>, ctx: Clock, input: T, end: PP.State): Option<Err> {
    match Ended(p, scope, ctx, input, end)
    case Faulting(_, seen, cause) => Some(FaultErr(cause, seen))
    case Finishing(_, _) => None
  }

  method Run<T>(p: Pipeline<T>, scope: Option<Err>, ctx: Clock, input: T, end: PP.State) returns (r: RunReturn<T>, err: Option<Err>)
    ensures r == RunResult(p, scope, ctx, input, end) && err == RunError(p, scope, ctx, input, end)
  {
    hide Phase, FaultResult, FinalResult, FaultErr;
    if scope.Some? {
      return FaultResult(input, []), Some(FaultErr(scope.value, []));
    }
    var first := RunPhase(p.sequential, ctx, 0, input, []);
    if first.Aborts? {
      return FaultResult(first.value, first.seen), Some(FaultErr(first.cause, first.seen));
    }
    if first.Stops? {
      r := FinalizeResult(p, first.value, first.seen);
      return r, None;
    }
    var second := RunPhase(p.policies, ctx, 2 * |p.sequential|, first.value, first.seen);
    if second.Aborts? {
      return FaultResult(second.value, second.seen), Some(FaultErr(second.cause, second.seen));
    }
    if second.Stops? {
      r := FinalizeResult(p, second.value, second.seen);
      return r, None;
    }
    var reports := second.seen + end.reports;
    var partial := FinalizeResult(p, second.value, reports);
    if end.groupErr.Some? {
      return FaultResult(second.value, reports), Some(FaultErr(end.groupErr.value, reports));
    }
    if end.firstErr.Some? {
      return FaultResult(second.value, reports), Some(FaultErr(end.firstErr.value, reports));
    }
    if end.parent.Some? {
      return FaultResult(second.value, reports), Some(FaultErr(end.parent.value, reports));
    }
    return partial, None;
  }

  // ----- what a run promises

  lemma FaultResultContract<T>(value: T, seen: seq<Report>)
    ensures RunContract(FaultResult(value, seen)) && FaultResult(value, seen).err.FaultError?
    ensures Decide(FaultResult(value, seen).reports).Effective() == FAULT
  {
    var reports := FaultReports(seen);
    DecideIsStrongest(reports);
    NormalizedIdempotent(Decide(reports));
    assert FAULT_REPORT in reports;
    FaultStays(Decide(reports), WorstKind(reports));
  }

  /** The error of a faulted run carries the fault, with the kind of the whole result. */
  lemma FaultErrorIs<T>(value: T, seen: seq<Report>)
    ensures FaultResult(value, seen).err == FaultError(Decision(PASS, FAULT, FaultResult(value, seen).outputKind))
  {
    hide WorstKind;
    var reports := FaultReports(seen);
    assert reports[..|reports| - 1] == seen;
    SelectedIsStrongest(seen);
    assert Selected(reports) == Some(FAULT_REPORT);
    CarriesFault(WorstKind(reports));
  }

  lemma CarriesFault(kind: int)
    requires SAFE_TEXT <= kind <= TECHNICAL
    ensures FailureDecision(Some(FAULT_REPORT.Normalized().(payloadKind := kind).Normalized())) == Decision(PASS, FAULT, kind)
  {
  }

  lemma FaultStays(d: Report, kind: int)
    requires d.Normalized() == d && d.Effective() == FAULT
    ensures FailureDecision(Some(d.(payloadKind := kind).Normalized())).disposition == FAULT
    ensures FailureDecision(Some(d.Normalized())).disposition == FAULT
  {
  }

  /**
   * Every run meets the contract that checked delivery relies on. It returns an error exactly when it faults, and that
   * error attests every report of the result: its evidence is at least as restrictive as the output kind.
   */
  lemma RunMeetsContract<T>(p: Pipeline<T>, scope: Option<Err>, ctx: Clock, input: T, end: PP.State)
    ensures RunContract(RunResult(p, scope, ctx, input, end))
    ensures var r, err := RunResult(p, scope, ctx, input, end), RunError(p, scope, ctx, input, end);
            (err.Some? <==> r.err.FaultError?) && (err.Some? ==> r.outputKind <= JoinAll(Collected(err.value)).kind)
  {
    hide Ended, FaultResult, FinalResult, RunContract, JoinAll, FaultErr;
    var e := Ended(p, scope, ctx, input, end);
    FaultResultContract(e.value, e.seen);
    FinalResultContract(p, e.value, e.seen);
    if e.Faulting? {
      FaultKindAttested(e.value, e.seen, e.cause);
    }
  }

  lemma FaultKindAttested<T>(value: T, seen: seq<Report>, cause: Err)
    ensures FaultResult(value, seen).outputKind <= JoinAll(Collected(FaultErr(cause, seen))).kind
  {
    hide JoinAll, FaultErr, Decide;
    FaultErrAttests(cause, seen);
    JoinAllBounds(Collected(FaultErr(cause, seen)));
    var reports := FaultReports(seen);
    forall r | r in reports
      ensures ClampedKind(r) <= JoinAll(Collected(FaultErr(cause, seen))).kind
    {
      if r in seen {
        KindOfStrength(r);
      }
    }
  }

  lemma KindOfStrength(r: Report)
    ensures StrengthOf(r).kind == ClampedKind(r)
  {
  }

  lemma FinalResultContract<T>(p: Pipeline<T>, output: T, seen: seq<Report>)
    ensures RunContract(FinalResult(p, output, seen)) && FinalResult(p, output, seen).err == NoError
  {
  }

  /** Every check of a phase returned in time, without an error and without a refusal. */
  predicate AllPassed<T>(checks: seq<Check<T>>, ctx: Clock, tick: nat, value: T)
    decreases |checks|
  {
    checks != [] ==>
      && var c := checks[0](value);
      && ctx(tick).None? && ctx(tick + 1).None? && c.err.None? && !Refused(c.rep)
      && AllPassed(checks[1..], ctx, tick + 2, c.out)
  }

  /** The composition of the checks' transforms. */
  function Transformed<T>(checks: seq<Check<T>>, value: T): T
    decreases |checks|
  {
    if checks == [] then value else Transformed(checks[1..], checks[0](value).out)
  }

  /** A phase goes on exactly when all its checks passed, and then with their composed transform. */
  lemma {:induction false} PhaseGoes<T>(checks: seq<Check<T>>, ctx: Clock, tick: nat, value: T, seen: seq<Report>)
    ensures var end := Phase(checks, ctx, tick, value, seen);
            && (end.Goes? <==> AllPassed(checks, ctx, tick, value))
            && (end.Goes? ==> end.value == Transformed(checks, value) && forall r :: r in seen ==> r in end.seen)
            && (end.Stops? ==> exists r :: r in end.seen && PP.ShortCircuits(r))
    decreases |checks|
  {
    if checks != [] {
      var c := checks[0](value);
      PhaseGoes(checks[1..], ctx, tick + 2, c.out, Note(seen, c.rep));
      if Refused(c.rep) {
        NormalizedIdempotent(c.rep.value);
        assert c.rep.value.Normalized() in Note(seen, c.rep);
      }
    }
  }

  /** How a phase ended at its k-th check: everything before it passed, and this one came too late, failed, or refused. */
  ghost predicate EndedAt<T>(checks: seq<Check<T>>, ctx: Clock, tick: nat, value: T, end: PhaseEnd<T>, k: nat) {
    && k <= |checks| && AllPassed(checks[..k], ctx, tick, value)
    && var before := Transformed(checks[..k], value);
    match end
    case Goes(v, _) => k == |checks| && v == before
    case Aborts(v, _, cause) =>
      k < |checks| && v == before
      && (ctx(tick + 2 * k) == Some(cause)
          || (ctx(tick + 2 * k).None? && WithContext(checks[k](before).err, ctx(tick + 2 * k + 1)) == Some(cause)))
    case Stops(v, _) =>
      k < |checks| && v == checks[k](before).out && Refused(checks[k](before).rep)
      && ctx(tick + 2 * k).None? && ctx(tick + 2 * k + 1).None? && checks[k](before).err.None?
  }

  lemma {:induction false} PhaseEnds<T>(checks: seq<Check<T>>, ctx: Clock, tick: nat, value: T, seen: seq<Report>)
    ensures exists k: nat :: EndedAt(checks, ctx, tick, value, Phase(checks, ctx, tick, value, seen), k)
    decreases |checks|
  {
    hide EndedAt;
    var end := Phase(checks, ctx, tick, value, seen);
    if checks != [] && ctx(tick).None? && ctx(tick + 1).None? && checks[0](value).err.None? && !Refused(checks[0](value).rep) {
      var c := checks[0](value);
      PhaseEnds(checks[1..], ctx, tick + 2, c.out, Note(seen, c.rep));
      var k: nat :| EndedAt(checks[1..], ctx, tick + 2, c.out, end, k);
      EndsLater(checks, ctx, tick, value, end, k);
    } else {
      EndsHere(checks, ctx, tick, value, seen);
    }
  }

  lemma EndsLater<T>(checks: seq<Check<T>>, ctx: Clock, tick: nat, value: T, end: PhaseEnd<T>, k: nat)
    requires checks != [] && ctx(tick).None? && ctx(tick + 1).None? && checks[0](value).err.None? && !Refused(checks[0](value).rep)
    requires EndedAt(checks[1..], ctx, tick + 2, checks[0](value).out, end, k)
    ensures EndedAt(checks, ctx, tick, value, end, k + 1)
  {
    hide Refused;
    var front := checks[..k + 1];
    assert front != [] && front[0] == checks[0] && front[1..] == checks[1..][..k];
    assert tick + 2 + 2 * k == tick + 2 * (k + 1);
    assert k < |checks| - 1 ==> checks[1..][k] == checks[k + 1];
  }

  lemma EndsHere<T>(checks: seq<Check<T>>, ctx: Clock, tick: nat, value: T, seen: seq<Report>)
    requires checks != [] && ctx(tick).None? && ctx(tick + 1).None? && checks[0](value).err.None? ==> Refused(checks[0](value).rep)
    ensures EndedAt(checks, ctx, tick, value, Phase(checks, ctx, tick, value, seen), 0)
  {
    hide Refused, Note, AppendCompleted;
    assert checks[..0] == [];
  }

  /**
   * What a run hands out. On a user channel a finalized run that is refused, by a deny or a fault, hands out the zero
   * value; every other run hands out the value its phases left.
   */
  lemma OutputIs<T>(p: Pipeline<T>, scope: Option<Err>, ctx: Clock, input: T, end: PP.State)
    ensures var r := RunResult(p, scope, ctx, input, end);
            var refused := Decide(r.reports).Effective() == DENY || Decide(r.reports).Effective() == FAULT;
            r.output == if p.userChannel && r.err == NoError && refused then p.zero else Ended(p, scope, ctx, input, end).value
  {
    hide *;
    var e := Ended(p, scope, ctx, input, end);
    ResultIs(p, scope, ctx, input, end);
    FinalOutput(p, e.value, e.seen);
    FaultOutput(e.value, e.seen);
  }

  lemma FinalOutput<T>(p: Pipeline<T>, output: T, seen: seq<Report>)
    ensures var r := FinalResult(p, output, seen);
            var refused := Decide(r.reports).Effective() == DENY || Decide(r.reports).Effective() == FAULT;
            r.err == NoError && r.output == if p.userChannel && refused then p.zero else output
  {
    hide Decide, WorstKind;
    if WorstKind(seen) != SAFE_TEXT {
      var added := Report(BLOCK, NONE, WorstKind(seen), false, false, false, true).Normalized();
      DecideAppend(seen, [added]);
      AddedDenies(seen, added);
    }
  }

  /** Whatever was decided before, a deny among the reports is only ever outranked by a fault. */
  lemma AddedDenies(seen: seq<Report>, added: Report)
    requires !added.IsObservation() && added.Effective() == DENY
    ensures Decide(seen + [added]).Effective() == DENY || Decide(seen + [added]).Effective() == FAULT
  {
    hide Decide;
    DecideIsStrongest(seen + [added]);
    assert added in seen + [added];
    NormalizedIdempotent(added);
    NormalizedIdempotent(Decide(seen + [added]));
  }

  lemma FaultOutput<T>(value: T, seen: seq<Report>)
    ensures FaultResult(value, seen).output == value && FaultResult(value, seen).err != NoError
  {
  }

  /** The value the phases left: the input behind the transforms of the checks that were called to the end, in order. */
  lemma EndedValue<T>(p: Pipeline<T>, scope: Option<Err>, ctx: Clock, input: T, end: PP.State)
    ensures exists i: nat, j: nat :: ValueBehind(p, input, Ended(p, scope, ctx, input, end).value, i, j)
  {
    hide Phase, Transformed, PP.FinalError;
    var first := Phase(p.sequential, ctx, 0, input, []);
    var second := Phase(p.policies, ctx, 2 * |p.sequential|, first.value, first.seen);
    var value := Ended(p, scope, ctx, input, end).value;
    var i := ValueLeft(p.sequential, ctx, 0, input, []);
    var j := ValueLeft(p.policies, ctx, 2 * |p.sequential|, first.value, first.seen);
    if scope.Some? {
      NoTransform(p, input);
      assert ValueBehind(p, input, value, 0, 0);
    } else if first.Goes? {
      assert ValueBehind(p, input, value, |p.sequential|, j);
    } else {
      NoTransform(p, first.value);
      assert ValueBehind(p, input, value, i, 0);
    }
  }

  ghost predicate ValueBehind<T>(p: Pipeline<T>, input: T, value: T, i: nat, j: nat) {
    && i <= |p.sequential| && j <= |p.policies| && (j > 0 ==> i == |p.sequential|)
    && value == Transformed(p.policies[..j], Transformed(p.sequential[..i], input))
  }

  lemma NoTransform<T>(p: Pipeline<T>, value: T)
    ensures Transformed(p.policies[..0], value) == value == Transformed(p.sequential[..0], value)
  {
  }

  /** Every phase leaves the transforms of its first checks; all of them when it goes on. */
  lemma ValueLeft<T>(checks: seq<Check<T>>, ctx: Clock, tick: nat, value: T, seen: seq<Report>) returns (n: nat)
    ensures n <= |checks| && Phase(checks, ctx, tick, value, seen).value == Transformed(checks[..n], value)
    ensures Phase(checks, ctx, tick, value, seen).Goes? ==> n == |checks|
  {
    hide Phase, AllPassed;
    PhaseEnds(checks, ctx, tick, value, seen);
    var end := Phase(checks, ctx, tick, value, seen);
    var k: nat :| EndedAt(checks, ctx, tick, value, end, k);
    n := if end.Stops? then k + 1 else k;
    if end.Stops? {
      TransformedSnoc(checks[..k], checks[k], value);
      assert checks[..k + 1] == checks[..k] + [checks[k]];
    }
  }

  lemma {:induction false} TransformedSnoc<T>(front: seq<Check<T>>, last: Check<T>, value: T)
    ensures Transformed(front + [last], value) == last(Transformed(front, value)).out
    decreases |front|
  {
    if front == [] {
      assert ([] + [last])[1..] == [];
    } else {
      assert (front + [last])[1..] == front[1..] + [last];
      TransformedSnoc(front[1..], last, front[0](value).out);
    }
  }

  /** A refusal among the reports is never finalized into an allow. */
  lemma RefusalIsFinal<T>(p: Pipeline<T>, output: T, seen: seq<Report>)
    ensures var r := FinalResult(p, output, seen);
            Decide(r.reports).Effective() == NONE ==> Decide(seen).Effective() == NONE && r.output == output
    ensures (exists rep :: rep in seen && PP.ShortCircuits(rep)) ==> !Allows(FinalResult(p, output, seen))
    ensures forall rep :: rep in seen ==> rep in FinalResult(p, output, seen).reports
  {
    var reports := ChannelReports(p.userChannel, seen);
    DecideIsStrongest(seen);
    DecideIsStrongest(reports);
    if p.userChannel && WorstKind(seen) != SAFE_TEXT {
      var added := Report(BLOCK, NONE, WorstKind(seen), false, false, false, true).Normalized();
      assert added in reports && PP.ShortCircuits(added);
    }
    ErrorFromDecisionIs(reports);
  }

  /** The boundary lets this result through. */
  predicate Allows<T>(r: RunReturn<T>) {
    r.err == NoError && ErrorFromDecision(Decide(r.reports)) == NoError
  }

  lemma FaultNeverAllows<T>(value: T, seen: seq<Report>)
    ensures !Allows(FaultResult(value, seen))
  {
  }

  /** An allowed run got through both sequential phases and ended in the parallel one. */
  lemma AllowedReachesParallel<T>(p: Pipeline<T>, scope: Option<Err>, ctx: Clock, input: T, end: PP.State)
    requires Allows(RunResult(p, scope, ctx, input, end))
    ensures scope.None? && Phase(p.sequential, ctx, 0, input, []).Goes?
    ensures var first := Phase(p.sequential, ctx, 0, input, []);
            var second := Phase(p.policies, ctx, 2 * |p.sequential|, first.value, first.seen);
            && second.Goes? && PP.FinalError(end).None?
            && RunResult(p, scope, ctx, input, end) == FinalResult(p, second.value, second.seen + end.reports)
  {
    hide Phase, FaultResult, FinalResult, Allows;
    FaultNeverAllows(input, []);
    var first := Phase(p.sequential, ctx, 0, input, []);
    PhaseGoes(p.sequential, ctx, 0, input, []);
    FaultNeverAllows(first.value, first.seen);
    RefusalIsFinal(p, first.value, first.seen);
    if first.Goes? {
      var second := Phase(p.policies, ctx, 2 * |p.sequential|, first.value, first.seen);
      PhaseGoes(p.policies, ctx, 2 * |p.sequential|, first.value, first.seen);
      FaultNeverAllows(second.value, second.seen);
      RefusalIsFinal(p, second.value, second.seen);
      FaultNeverAllows(second.value, second.seen + end.reports);
    }
  }

  /**
   * Fail-closed under every interleaving: a run is allowed only if the scope was complete, every sequential and
   * policy check passed, every parallel check ran to completion and was benign, and the parent stayed live. The
   * output is then the composition of the sequential and policy transforms.
   */
  lemma AllowedRun<T>(p: Pipeline<T>, scope: Option<Err>, ctx: Clock, input: T, events: seq<PP.Event>, end: PP.State)
    requires EndOfParallel(p, events, end)
    requires Allows(RunResult(p, scope, ctx, input, end))
    ensures scope.None?
    ensures AllPassed(p.sequential, ctx, 0, input)
    ensures var mid := Transformed(p.sequential, input);
            && AllPassed(p.policies, ctx, 2 * |p.sequential|, mid)
            && RunResult(p, scope, ctx, input, end).output == Transformed(p.policies, mid)
    ensures forall i :: 0 <= i < p.parallel ==> end.answers[i].Some? && PP.Benign(end.answers[i].value)
    ensures end.parent.None?
  {
    AllowedReachesParallel(p, scope, ctx, input, end);
    hide Phase, FaultResult, RunResult;
    var first := Phase(p.sequential, ctx, 0, input, []);
    var second := Phase(p.policies, ctx, 2 * |p.sequential|, first.value, first.seen);
    var seen := second.seen + end.reports;
    PhaseGoes(p.sequential, ctx, 0, input, []);
    PhaseGoes(p.policies, ctx, 2 * |p.sequential|, first.value, first.seen);
    RefusalIsFinal(p, second.value, seen);
    var reports := FinalResult(p, second.value, seen).reports;
    ErrorFromDecisionIs(reports);
    PP.AllowedOnlyIfAllBenign(p.parallel, events, reports);
  }

  // ----- the evidence of the whole run

  /** The answers of the callbacks that a phase makes before it ends. */
  function Answers<T>(checks: seq<Check<T>>, ctx: Clock, tick: nat, value: T): seq<PP.Answer>
    decreases |checks|
  {
    if checks == [] || ctx(tick).Some? then []
    else
      var c := checks[0](value);
      var a := PP.Answer(c.rep, c.err, ctx(tick + 1));
      if PP.ErrorOf(a).Some? || Refused(c.rep) then [a] else [a] + Answers(checks[1..], ctx, tick + 2, c.out)
  }

  function EvidenceOf(a: PP.Answer): Option<Report> { Evidence(a.rep, PP.ErrorOf(a)) }

  ghost predicate EvidenceAmong(answers: seq<PP.Answer>, r: Report) {
    exists a :: a in answers && EvidenceOf(a) == Some(r)
  }

  /** However a phase ends, it has kept what was seen before and added exactly the evidence of its callbacks. */
  lemma {:induction false} PhaseKeepsEvidence<T>(checks: seq<Check<T>>, ctx: Clock, tick: nat, value: T, seen: seq<Report>, r: Report)
    ensures r in Phase(checks, ctx, tick, value, seen).seen <==> r in seen || EvidenceAmong(Answers(checks, ctx, tick, value), r)
    decreases |checks|
  {
    if checks != [] && ctx(tick).None? {
      var c := checks[0](value);
      var a := PP.Answer(c.rep, c.err, ctx(tick + 1));
      hide EvidenceAmong, AppendCompleted;
      if PP.ErrorOf(a).Some? {
        AppendIsEvidence(seen, c.rep, PP.ErrorOf(a).value);
        EvidenceFirst(a, [], r);
      } else if Refused(c.rep) {
        EvidenceFirst(a, [], r);
      } else {
        PhaseKeepsEvidence(checks[1..], ctx, tick + 2, c.out, Note(seen, c.rep), r);
        EvidenceFirst(a, Answers(checks[1..], ctx, tick + 2, c.out), r);
      }
    }
  }

  /** What the callbacks of a phase left, in their order. */
  function Evidences(answers: seq<PP.Answer>): seq<Report> {
    if answers == [] then [] else AsSeq(EvidenceOf(answers[0])) + Evidences(answers[1..])
  }

  function AsSeq(r: Option<Report>): seq<Report> { if r.Some? then [r.value] else [] }

  /** A phase records its callbacks' evidence in order, each once, behind what was seen before. */
  lemma {:induction false} PhaseRecords<T>(checks: seq<Check<T>>, ctx: Clock, tick: nat, value: T, seen: seq<Report>)
    ensures Phase(checks, ctx, tick, value, seen).seen == seen + Evidences(Answers(checks, ctx, tick, value))
    decreases |checks|
  {
    hide EvidenceOf, AppendCompleted, AsSeq, Evidences, Note;
    NoEvidence(seen);
    if checks != [] && ctx(tick).None? {
      var c := checks[0](value);
      var a := PP.Answer(c.rep, c.err, ctx(tick + 1));
      RecordOne(seen, a);
      EvidencesFirst(a, []);
      if PP.ErrorOf(a).None? && !Refused(c.rep) {
        var rest := Answers(checks[1..], ctx, tick + 2, c.out);
        PhaseRecords(checks[1..], ctx, tick + 2, c.out, Note(seen, c.rep));
        EvidencesFirst(a, rest);
        Regroup(seen, AsSeq(EvidenceOf(a)), Evidences(rest));
      }
    }
  }

  lemma NoEvidence(seen: seq<Report>)
    ensures seen + Evidences([]) == seen
  {
  }

  lemma EvidencesFirst(a: PP.Answer, rest: seq<PP.Answer>)
    ensures Evidences([a] + rest) == AsSeq(EvidenceOf(a)) + Evidences(rest)
    ensures Evidences([a]) == AsSeq(EvidenceOf(a))
  {
    assert ([a] + rest)[1..] == rest && [a][1..] == [];
  }

  lemma RecordOne(seen: seq<Report>, a: PP.Answer)
    ensures PP.ErrorOf(a).Some? ==> AppendCompleted(seen, PP.ErrorOf(a).value) == seen + AsSeq(EvidenceOf(a))
    ensures PP.ErrorOf(a).None? ==> Note(seen, a.rep) == seen + AsSeq(EvidenceOf(a))
  {
    if PP.ErrorOf(a).Some? {
      AppendIsEvidence(seen, a.rep, PP.ErrorOf(a).value);
    }
  }

  lemma EvidenceFirst(a: PP.Answer, rest: seq<PP.Answer>, r: Report)
    ensures EvidenceAmong([a] + rest, r) <==> EvidenceOf(a) == Some(r) || EvidenceAmong(rest, r)
    ensures EvidenceAmong([a], r) <==> EvidenceOf(a) == Some(r)
    ensures !EvidenceAmong([], r)
  {
    assert a in [a] + rest;
    assert forall b :: b in [a] + rest <==> b == a || b in rest;
    assert a in [a];
  }

  /** The run called back and got this answer; parallel checks are read-only and may not redact. */
  ghost predicate Made<T>(p: Pipeline<T>, scope: Option<Err>, ctx: Clock, input: T, end: PP.State, a: PP.Answer, parallel: bool) {
    var first := Phase(p.sequential, ctx, 0, input, []);
    var second := Phase(p.policies, ctx, 2 * |p.sequential|, first.value, first.seen);
    && scope.None?
    && if parallel then first.Goes? && second.Goes? && Some(a) in end.answers
       else a in Answers(p.sequential, ctx, 0, input)
            || (first.Goes? && a in Answers(p.policies, ctx, 2 * |p.sequential|, first.value))
  }

  function Left(a: PP.Answer, parallel: bool): Option<Report> {
    if parallel then PP.Contribution(a) else EvidenceOf(a)
  }

  /** What a run itself adds to its callbacks' evidence: the fault, or the user channel's refusal. */
  predicate AddedByRun<T>(p: Pipeline<T>, r: RunReturn<T>, rep: Report) {
    (r.err.FaultError? && rep == FAULT_REPORT) || (p.userChannel && rep.action == BLOCK && rep.Effective() == DENY)
  }

  lemma FinalReports<T>(p: Pipeline<T>, output: T, seen: seq<Report>, rep: Report)
    ensures var r := FinalResult(p, output, seen);
            (rep in seen ==> rep in r.reports) && (rep in r.reports ==> rep in seen || AddedByRun(p, r, rep))
    ensures var r := FaultResult(output, seen);
            (rep in seen ==> rep in r.reports) && (rep in r.reports ==> rep in seen || AddedByRun(p, r, rep))
  {
    hide Decide, WorstKind, PolicyReport, FailureDecision;
    ChannelRefuses(WorstKind(seen));
  }

  lemma ChannelRefuses(kind: int)
    requires SAFE_TEXT <= kind <= TECHNICAL
    ensures var r := Report(BLOCK, NONE, kind, false, false, false, true).Normalized(); r.action == BLOCK && r.Effective() == DENY
  {
  }

  /** Some callback of the run left this report. */
  ghost predicate LeftBehind<T>(p: Pipeline<T>, scope: Option<Err>, ctx: Clock, input: T, end: PP.State, rep: Report) {
    exists a, parallel :: Made(p, scope, ctx, input, end, a, parallel) && Left(a, parallel) == Some(rep)
  }

  lemma LeftBehindIs<T>(p: Pipeline<T>, scope: Option<Err>, ctx: Clock, input: T, end: PP.State, rep: Report)
    ensures var first := Phase(p.sequential, ctx, 0, input, []);
            var second := Phase(p.policies, ctx, 2 * |p.sequential|, first.value, first.seen);
            LeftBehind(p, scope, ctx, input, end, rep) <==>
            scope.None?
            && (EvidenceAmong(Answers(p.sequential, ctx, 0, input), rep)
                || (first.Goes? && EvidenceAmong(Answers(p.policies, ctx, 2 * |p.sequential|, first.value), rep))
                || (first.Goes? && second.Goes? && PP.Contributed(end, rep)))
  {
    hide Phase, Answers, EvidenceOf, PP.Contribution;
    var first := Phase(p.sequential, ctx, 0, input, []);
    var second := Phase(p.policies, ctx, 2 * |p.sequential|, first.value, first.seen);
    var policies := Answers(p.policies, ctx, 2 * |p.sequential|, first.value);
    if LeftBehind(p, scope, ctx, input, end, rep) {
      var a, parallel :| Made(p, scope, ctx, input, end, a, parallel) && Left(a, parallel) == Some(rep);
      if parallel {
        var i :| 0 <= i < |end.answers| && end.answers[i] == Some(a);
        assert PP.Contribution(end.answers[i].value) == Some(rep);
      }
    }
    if scope.None? && EvidenceAmong(Answers(p.sequential, ctx, 0, input), rep) {
      var a :| a in Answers(p.sequential, ctx, 0, input) && EvidenceOf(a) == Some(rep);
      assert Made(p, scope, ctx, input, end, a, false) && Left(a, false) == Some(rep);
    }
    if scope.None? && first.Goes? && EvidenceAmong(policies, rep) {
      var a :| a in policies && EvidenceOf(a) == Some(rep);
      assert Made(p, scope, ctx, input, end, a, false) && Left(a, false) == Some(rep);
    }
    if scope.None? && first.Goes? && second.Goes? && PP.Contributed(end, rep) {
      var i :| 0 <= i < |end.answers| && end.answers[i].Some? && PP.Contribution(end.answers[i].value) == Some(rep);
      var a := end.answers[i].value;
      assert Some(a) in end.answers;
      assert Made(p, scope, ctx, input, end, a, true) && Left(a, true) == Some(rep);
    }
  }

  /** Up to its end a run has kept exactly what its callbacks left. */
  lemma EndKeepsEvidence<T>(p: Pipeline<T>, scope: Option<Err>, ctx: Clock, input: T, events: seq<PP.Event>, end: PP.State, rep: Report)
    requires EndOfParallel(p, events, end)
    ensures rep in Ended(p, scope, ctx, input, end).seen <==> LeftBehind(p, scope, ctx, input, end, rep)
  {
    hide *;
    var first := Phase(p.sequential, ctx, 0, input, []);
    var second := Phase(p.policies, ctx, 2 * |p.sequential|, first.value, first.seen);
    EndedIs(p, scope, ctx, input, end);
    LeftBehindIs(p, scope, ctx, input, end, rep);
    PhaseKeepsEvidence(p.sequential, ctx, 0, input, [], rep);
    PhaseKeepsEvidence(p.policies, ctx, 2 * |p.sequential|, first.value, first.seen, rep);
    ParallelLeaves(p, events, end, rep);
  }

  lemma EndedIs<T>(p: Pipeline<T>, scope: Option<Err>, ctx: Clock, input: T, end: PP.State)
    ensures var first := Phase(p.sequential, ctx, 0, input, []);
            var second := Phase(p.policies, ctx, 2 * |p.sequential|, first.value, first.seen);
            Ended(p, scope, ctx, input, end).seen ==
            if scope.Some? then [] else if !first.Goes? then first.seen
            else if !second.Goes? then second.seen else second.seen + end.reports
  {
    hide Phase;
  }

  lemma ParallelLeaves<T>(p: Pipeline<T>, events: seq<PP.Event>, end: PP.State, rep: Report)
    requires EndOfParallel(p, events, end)
    ensures rep in end.reports <==> PP.Contributed(end, rep)
  {
    hide PP.Contributed, PP.Run;
    PP.ReportsAreContributions(p.parallel, events, rep);
  }

  /**
   * Evidence conservation over the whole run, in every schedule and however it ends: the reports of the result
   * are exactly what the callbacks left, next to the run's own verdict.
   */
  lemma ReportsAreEvidence<T>(p: Pipeline<T>, scope: Option<Err>, ctx: Clock, input: T, events: seq<PP.Event>, end: PP.State, rep: Report)
    requires EndOfParallel(p, events, end)
    ensures var r := RunResult(p, scope, ctx, input, end);
            && (LeftBehind(p, scope, ctx, input, end, rep) ==> rep in r.reports)
            && (rep in r.reports ==> AddedByRun(p, r, rep) || LeftBehind(p, scope, ctx, input, end, rep))
  {
    hide *;
    var e := Ended(p, scope, ctx, input, end);
    EndKeepsEvidence(p, scope, ctx, input, events, end, rep);
    FinalReports(p, e.value, e.seen, rep);
    ResultIs(p, scope, ctx, input, end);
  }

  lemma ResultIs<T>(p: Pipeline<T>, scope: Option<Err>, ctx: Clock, input: T, end: PP.State)
    ensures var e := Ended(p, scope, ctx, input, end);
            RunResult(p, scope, ctx, input, end) == if e.Faulting? then FaultResult(e.value, e.seen) else FinalResult(p, e.value, e.seen)
  {
    hide Ended, FaultResult, FinalResult;
  }

  /** The answers of the phase that was reached last count; those of a phase that was not reached do not. */
  function SequentialAnswers<T>(p: Pipeline<T>, scope: Option<Err>, ctx: Clock, input: T): seq<PP.Answer> {
    if scope.Some? then [] else Answers(p.sequential, ctx, 0, input)
  }

  function PolicyAnswers<T>(p: Pipeline<T>, scope: Option<Err>, ctx: Clock, input: T): seq<PP.Answer> {
    var first := Phase(p.sequential, ctx, 0, input, []);
    if scope.Some? || !first.Goes? then [] else Answers(p.policies, ctx, 2 * |p.sequential|, first.value)
  }

  predicate ReachesParallel<T>(p: Pipeline<T>, scope: Option<Err>, ctx: Clock, input: T) {
    && scope.None? && AllPassed(p.sequential, ctx, 0, input)
    && AllPassed(p.policies, ctx, 2 * |p.sequential|, Transformed(p.sequential, input))
  }

  /**
   * Conservation over the whole run: its reports are the evidence of its callbacks, in order and each once, then those
   * of the parallel phase, each once in the order of its schedule, and at most one report of the run's own.
   */
  lemma ReportsAre<T>(p: Pipeline<T>, scope: Option<Err>, ctx: Clock, input: T, events: seq<PP.Event>, end: PP.State)
    requires EndOfParallel(p, events, end)
    ensures var r := RunResult(p, scope, ctx, input, end);
            var called := Evidences(SequentialAnswers(p, scope, ctx, input)) + Evidences(PolicyAnswers(p, scope, ctx, input));
            var all := called + (if ReachesParallel(p, scope, ctx, input) then end.reports else []);
            && (r.reports == all || exists own :: r.reports == all + [own] && AddedByRun(p, r, own))
            && (r.err.FaultError? ==> r.reports == all + [FAULT_REPORT])
    ensures multiset(end.reports) == PP.Contributions(end.answers)
  {
    hide *;
    var e := Ended(p, scope, ctx, input, end);
    ExactEnd(p, events, end);
    EndRecords(p, scope, ctx, input, end);
    ResultIs(p, scope, ctx, input, end);
    OwnReport(p, e.value, e.seen);
  }

  lemma ExactEnd<T>(p: Pipeline<T>, events: seq<PP.Event>, end: PP.State)
    requires EndOfParallel(p, events, end)
    ensures multiset(end.reports) == PP.Contributions(end.answers)
  {
    hide PP.Run;
    PP.ReportsAreExactly(p.parallel, events);
  }

  lemma EndRecords<T>(p: Pipeline<T>, scope: Option<Err>, ctx: Clock, input: T, end: PP.State)
    ensures Ended(p, scope, ctx, input, end).seen ==
            Evidences(SequentialAnswers(p, scope, ctx, input)) + Evidences(PolicyAnswers(p, scope, ctx, input))
            + (if ReachesParallel(p, scope, ctx, input) then end.reports else [])
  {
    hide *;
    var first := Phase(p.sequential, ctx, 0, input, []);
    var second := Phase(p.policies, ctx, 2 * |p.sequential|, first.value, first.seen);
    EndedIs(p, scope, ctx, input, end);
    ReachedIs(p, scope, ctx, input);
    PhaseRecords(p.sequential, ctx, 0, input, []);
    PhaseRecords(p.policies, ctx, 2 * |p.sequential|, first.value, first.seen);
    NoEvidence([]);
    NoEvidence(first.seen);
    NothingMore(first.seen);
    NothingMore(second.seen);
    var called := Evidences(Answers(p.sequential, ctx, 0, input));
    assert [] + called == called;
  }

  lemma NothingMore(seen: seq<Report>)
    ensures seen + [] == seen
  {
  }

  lemma ReachedIs<T>(p: Pipeline<T>, scope: Option<Err>, ctx: Clock, input: T)
    ensures var first := Phase(p.sequential, ctx, 0, input, []);
            var second := Phase(p.policies, ctx, 2 * |p.sequential|, first.value, first.seen);
            && SequentialAnswers(p, scope, ctx, input) == (if scope.Some? then [] else Answers(p.sequential, ctx, 0, input))
            && PolicyAnswers(p, scope, ctx, input) ==
               (if scope.Some? || !first.Goes? then [] else Answers(p.policies, ctx, 2 * |p.sequential|, first.value))
            && (ReachesParallel(p, scope, ctx, input) <==> scope.None? && first.Goes? && second.Goes?)
  {
    hide Phase, Answers, AllPassed, Transformed;
    var first := Phase(p.sequential, ctx, 0, input, []);
    PhaseGoes(p.sequential, ctx, 0, input, []);
    PhaseGoes(p.policies, ctx, 2 * |p.sequential|, first.value, first.seen);
  }

  lemma OwnReport<T>(p: Pipeline<T>, output: T, seen: seq<Report>)
    ensures var r := FinalResult(p, output, seen);
            r.err == NoError && (r.reports == seen || exists own :: r.reports == seen + [own] && AddedByRun(p, r, own))
    ensures var r := FaultResult(output, seen); r.err.FaultError? && r.reports == seen + [FAULT_REPORT] && AddedByRun(p, r, FAULT_REPORT)
  {
    hide Decide, WorstKind, PolicyReport, FailureDecision;
    ChannelRefuses(WorstKind(seen));
  }

  /** The output kind of any result, a fault's above all, covers what every callback left. */
  lemma KindCoversEvidence<T>(p: Pipeline<T>, scope: Option<Err>, ctx: Clock, input: T, events: seq<PP.Event>, end: PP.State,
                              a: PP.Answer, parallel: bool, rep: Report)
    requires EndOfParallel(p, events, end) && Made(p, scope, ctx, input, end, a, parallel) && Left(a, parallel) == Some(rep)
    ensures rep in RunResult(p, scope, ctx, input, end).reports
    ensures ClampedKind(rep) <= RunResult(p, scope, ctx, input, end).outputKind
  {
    assert LeftBehind(p, scope, ctx, input, end, rep);
    hide Made, Left, RunResult, LeftBehind, EndOfParallel;
    ReportsAreEvidence(p, scope, ctx, input, events, end, rep);
    RunMeetsContract(p, scope, ctx, input, end);
  }

  /** It covers what the error of a failed check attests, joined with the context's error or not. */
  lemma KindCoversError<T>(p: Pipeline<T>, scope: Option<Err>, ctx: Clock, input: T, events: seq<PP.Event>, end: PP.State,
                           a: PP.Answer, parallel: bool)
    requires EndOfParallel(p, events, end) && Made(p, scope, ctx, input, end, a, parallel) && a.err.Some?
    ensures JoinAll(Collected(a.err.value)).kind <= RunResult(p, scope, ctx, input, end).outputKind
  {
    EvidenceCovers(a.err.value, a.rep, a.ctx);
    RunMeetsContract(p, scope, ctx, input, end);
    FailureLeavesEvidence(a, parallel);
    hide Made, RunResult, EndOfParallel, Left, EvidenceOf, JoinAll, Collected;
    if EvidenceOf(a).Some? {
      KindCoversEvidence(p, scope, ctx, input, events, end, a, parallel, EvidenceOf(a).value);
    }
  }

  /** In particular each report attested anywhere while the error of a failed check was built. */
  lemma KindCoversAttested<T>(p: Pipeline<T>, scope: Option<Err>, ctx: Clock, input: T, events: seq<PP.Event>, end: PP.State,
                              a: PP.Answer, parallel: bool, o: Origin, r: Report)
    requires EndOfParallel(p, events, end) && Made(p, scope, ctx, input, end, a, parallel)
    requires a.err == Some(Build(o)) && Some(r) in Attested(o)
    ensures ClampedKind(r) <= RunResult(p, scope, ctx, input, end).outputKind
  {
    hide Made, RunResult, EndOfParallel, Build, Attested;
    KindCoversError(p, scope, ctx, input, events, end, a, parallel);
    EvidenceConserved(o);
    JoinAllAbove(Attested(o), Some(r));
  }

  /**
   * Nested pipelines: when a check fails with an error that has another run's fault anywhere inside, the output kind
   * of the outer run is at least that of the inner one, and so covers every report of the inner run. Errors of runs
   * are genuine again (RunErrorIsGenuine), so this composes through any depth of nesting.
   */
  lemma KindCoversNested<T, U>(p: Pipeline<T>, scope: Option<Err>, ctx: Clock, input: T, events: seq<PP.Event>, end: PP.State,
                               a: PP.Answer, parallel: bool, path: seq<nat>, inner: Err,
                               q: Pipeline<U>, scope': Option<Err>, ctx': Clock, input': U, end': PP.State)
    requires EndOfParallel(p, events, end) && Made(p, scope, ctx, input, end, a, parallel)
    requires a.err.Some? && Genuine(a.err.value) && Reaches(a.err.value, path, inner)
    requires RunError(q, scope', ctx', input', end') == Some(inner)
    ensures RunResult(q, scope', ctx', input', end').outputKind <= RunResult(p, scope, ctx, input, end).outputKind
    ensures forall rep :: rep in RunResult(q, scope', ctx', input', end').reports ==>
                            ClampedKind(rep) <= RunResult(p, scope, ctx, input, end).outputKind
  {
    hide Made, RunResult, RunError, EndOfParallel, Genuine, Reaches, JoinAll, Collected;
    KindCoversError(p, scope, ctx, input, events, end, a, parallel);
    EvidenceSurvives(a.err.value, path, inner);
    RunMeetsContract(q, scope', ctx', input', end');
  }

  /** Every callback's error, the contexts' and the scope check's were made by genuine carriers only. */
  ghost predicate AllGenuine<T>(p: Pipeline<T>, scope: Option<Err>, ctx: Clock, input: T, end: PP.State) {
    && (scope.Some? ==> Genuine(scope.value))
    && (forall tick :: ctx(tick).Some? ==> Genuine(ctx(tick).value))
    && (end.parent.Some? ==> Genuine(end.parent.value))
    && (forall a, parallel :: Made(p, scope, ctx, input, end, a, parallel) ==> GenuineAnswer(a))
  }

  ghost predicate GenuineAnswer(a: PP.Answer) {
    (a.err.Some? ==> Genuine(a.err.value)) && (a.ctx.Some? ==> Genuine(a.ctx.value))
  }

  lemma GenuineError(a: PP.Answer)
    requires GenuineAnswer(a)
    ensures PP.ErrorOf(a).Some? ==> Genuine(PP.ErrorOf(a).value)
  {
    var e := PP.ErrorOf(a);
    if e.Some? && a.ctx.Some? {
      assert forall b :: b in e.value.branches ==> b == a.ctx.value || a.err == Some(b);
    }
  }

  /** A phase aborts with the context's error or with that of one of its answers. */
  lemma {:induction false} AbortCause<T>(checks: seq<Check<T>>, ctx: Clock, tick: nat, value: T, seen: seq<Report>)
    requires Phase(checks, ctx, tick, value, seen).Aborts?
    ensures var cause := Phase(checks, ctx, tick, value, seen).cause;
            || (exists t :: ctx(t) == Some(cause))
            || (exists a :: a in Answers(checks, ctx, tick, value) && PP.ErrorOf(a) == Some(cause))
    decreases |checks|
  {
    if ctx(tick).None? {
      var c := checks[0](value);
      var a := PP.Answer(c.rep, c.err, ctx(tick + 1));
      assert a in Answers(checks, ctx, tick, value);
      if PP.ErrorOf(a).None? {
        AbortCause(checks[1..], ctx, tick + 2, c.out, Note(seen, c.rep));
      }
    }
  }

  /** The error of a run whose callbacks return genuine errors is genuine. */
  lemma RunErrorIsGenuine<T>(p: Pipeline<T>, scope: Option<Err>, ctx: Clock, input: T, events: seq<PP.Event>, end: PP.State)
    requires EndOfParallel(p, events, end) && AllGenuine(p, scope, ctx, input, end)
    ensures RunError(p, scope, ctx, input, end).Some? ==> Genuine(RunError(p, scope, ctx, input, end).value)
  {
    var e := Ended(p, scope, ctx, input, end);
    if e.Faulting? {
      CauseIsGenuine(p, scope, ctx, input, events, end);
      FaultErrAttests(e.cause, e.seen);
    }
  }

  lemma CauseIsGenuine<T>(p: Pipeline<T>, scope: Option<Err>, ctx: Clock, input: T, events: seq<PP.Event>, end: PP.State)
    requires EndOfParallel(p, events, end) && AllGenuine(p, scope, ctx, input, end)
    requires Ended(p, scope, ctx, input, end).Faulting?
    ensures Genuine(Ended(p, scope, ctx, input, end).cause)
  {
    hide Phase, Answers, Genuine, PP.Run;
    var first := Phase(p.sequential, ctx, 0, input, []);
    var second := Phase(p.policies, ctx, 2 * |p.sequential|, first.value, first.seen);
    var cause := Ended(p, scope, ctx, input, end).cause;
    if scope.Some? {
    } else if first.Aborts? {
      AbortCause(p.sequential, ctx, 0, input, []);
      SequentialCause(p, scope, ctx, input, end, cause, Answers(p.sequential, ctx, 0, input));
    } else if second.Aborts? {
      AbortCause(p.policies, ctx, 2 * |p.sequential|, first.value, first.seen);
      SequentialCause(p, scope, ctx, input, end, cause, Answers(p.policies, ctx, 2 * |p.sequential|, first.value));
    } else if cause != REDACT_CAUSE && (end.groupErr == Some(cause) || end.firstErr == Some(cause)) {
      PP.ErrorsAreAnswers(p.parallel, events);
      var i :| 0 <= i < |end.answers| && end.answers[i].Some? && PP.Accounts(end.answers[i].value, cause);
      assert Some(end.answers[i].value) in end.answers;
      assert Made(p, scope, ctx, input, end, end.answers[i].value, true);
      GenuineError(end.answers[i].value);
    } else if cause == REDACT_CAUSE {
      RedactIsGenuine();
    }
  }

  const REDACT_CAUSE := PP.REDACT_ERROR

  lemma RedactIsGenuine()
    ensures Genuine(REDACT_CAUSE)
  {
  }

  lemma SequentialCause<T>(p: Pipeline<T>, scope: Option<Err>, ctx: Clock, input: T, end: PP.State, cause: Err, answers: seq<PP.Answer>)
    requires AllGenuine(p, scope, ctx, input, end)
    requires forall a :: a in answers ==> Made(p, scope, ctx, input, end, a, false)
    requires (exists t :: ctx(t) == Some(cause)) || (exists a :: a in answers && PP.ErrorOf(a) == Some(cause))
    ensures Genuine(cause)
  {
    hide Made, Genuine;
    if t :| ctx(t) == Some(cause) {
    } else {
      var a :| a in answers && PP.ErrorOf(a) == Some(cause);
      assert Made(p, scope, ctx, input, end, a, false);
      GenuineError(a);
    }
  }

  lemma FailureLeavesEvidence(a: PP.Answer, parallel: bool)
    requires a.err.Some?
    ensures Left(a, parallel) == EvidenceOf(a) == Evidence(a.rep, WithContext(a.err, a.ctx))
  {
  }

  /** A phase that goes on has only seen reports that refuse nothing. */
  lemma {:induction false} PhaseSeesNoRefusal<T>(checks: seq<Check<T>>, ctx: Clock, tick: nat, value: T, seen: seq<Report>)
    requires Phase(checks, ctx, tick, value, seen).Goes? && forall r :: r in seen ==> !PP.ShortCircuits(r)
    ensures forall r :: r in Phase(checks, ctx, tick, value, seen).seen ==> !PP.ShortCircuits(r)
    decreases |checks|
  {
    if checks != [] {
      var c := checks[0](value);
      if c.rep.Some? {
        NormalizedIdempotent(c.rep.value);
      }
      PhaseSeesNoRefusal(checks[1..], ctx, tick + 2, c.out, Note(seen, c.rep));
    }
  }

  /** Conversely, a run in which everything passed is allowed, unless a user channel withholds what is not plain text. */
  lemma PassedRunIsAllowed<T>(p: Pipeline<T>, ctx: Clock, input: T, events: seq<PP.Event>, end: PP.State)
    requires EndOfParallel(p, events, end) && PP.AllBenign(end)
    requires AllPassed(p.sequential, ctx, 0, input)
    requires AllPassed(p.policies, ctx, 2 * |p.sequential|, Transformed(p.sequential, input))
    ensures var r := RunResult(p, None, ctx, input, end); Allows(r) <==> !p.userChannel || r.outputKind == SAFE_TEXT
  {
    hide AllPassed, RunResult, FaultResult, FinalResult, Allows, PP.Run, PP.AllBenign;
    var value, seen := PassedReachesParallel(p, ctx, input, end);
    PP.BenignRunsAreUndisturbed(p.parallel, events);
    ParentLives(end);
    BenignResult(p, value, seen + end.reports);
  }

  lemma ParentLives(end: PP.State)
    requires PP.AllBenign(end)
    ensures end.parent.None?
  {
  }

  lemma BenignResult<T>(p: Pipeline<T>, output: T, seen: seq<Report>)
    requires forall r :: r in seen ==> !PP.ShortCircuits(r)
    ensures var r := FinalResult(p, output, seen); Allows(r) <==> !p.userChannel || r.outputKind == SAFE_TEXT
  {
    var reports := ChannelReports(p.userChannel, seen);
    DecideIsStrongest(reports);
    ErrorFromDecisionIs(reports);
    if p.userChannel && WorstKind(seen) != SAFE_TEXT {
      var added := Report(BLOCK, NONE, WorstKind(seen), false, false, false, true).Normalized();
      assert added in reports && PP.ShortCircuits(added);
    }
  }

  /** A parallel check's independent failure makes the run a system fault in every schedule. */
  lemma ParallelFailureFaults<T>(p: Pipeline<T>, ctx: Clock, input: T, events: seq<PP.Event>, end: PP.State, i: nat)
    requires EndOfParallel(p, events, end) && i < p.parallel
    requires AllPassed(p.sequential, ctx, 0, input)
    requires AllPassed(p.policies, ctx, 2 * |p.sequential|, Transformed(p.sequential, input))
    requires var a := end.answers[i]; a.Some? && a.value.err.Some? && !CancellationOnly(a.value.err.value)
    ensures var r := RunResult(p, None, ctx, input, end);
            r.err.FaultError? && r.err.failure.disposition == FAULT && Decide(r.reports).Effective() == FAULT
  {
    hide AllPassed, RunResult, FaultResult, FinalResult, Decide, FailureDecision, CancellationOnly, PP.Run;
    var value, seen := PassedReachesParallel(p, ctx, input, end);
    PP.FailureAlwaysFaults(p.parallel, events, i);
    FaultResultContract(value, seen + end.reports);
  }

  /** When both sequential phases pass, the run ends as its parallel phase does. */
  lemma PassedReachesParallel<T>(p: Pipeline<T>, ctx: Clock, input: T, end: PP.State) returns (value: T, seen: seq<Report>)
    requires AllPassed(p.sequential, ctx, 0, input)
    requires AllPassed(p.policies, ctx, 2 * |p.sequential|, Transformed(p.sequential, input))
    ensures RunResult(p, None, ctx, input, end) ==
            if PP.FinalError(end).Some? then FaultResult(value, seen + end.reports) else FinalResult(p, value, seen + end.reports)
    ensures forall r :: r in seen ==> !PP.ShortCircuits(r)
  {
    hide Phase, AllPassed, Transformed, FaultResult, FinalResult;
    var first := Phase(p.sequential, ctx, 0, input, []);
    PhaseGoes(p.sequential, ctx, 0, input, []);
    PhaseSeesNoRefusal(p.sequential, ctx, 0, input, []);
    var second := Phase(p.policies, ctx, 2 * |p.sequential|, first.value, first.seen);
    PhaseGoes(p.policies, ctx, 2 * |p.sequential|, first.value, first.seen);
    PhaseSeesNoRefusal(p.policies, ctx, 2 * |p.sequential|, first.value, first.seen);
    return second.value, second.seen;
  }

  /** When checks only obeyed a sibling's deny, the run is refused by that deny and is not an error. */
  lemma SiblingDenyDecides<T>(p: Pipeline<T>, ctx: Clock, input: T, events: seq<PP.Event>, end: PP.State)
    requires EndOfParallel(p, events, end) && PP.AllObedient(end)
    requires AllPassed(p.sequential, ctx, 0, input)
    requires AllPassed(p.policies, ctx, 2 * |p.sequential|, Transformed(p.sequential, input))
    requires exists i :: 0 <= i < p.parallel && end.answers[i].Some? && end.answers[i].value.ctx.Some?
    ensures var r := RunResult(p, None, ctx, input, end);
            && r.err == NoError && !Allows(r)
            && (Decide(r.reports).Effective() == DENY || Decide(r.reports).Effective() == FAULT)
            && end.block.Some? && end.block.value.Normalized() in r.reports
            && (Decide(r.reports).Effective() == FAULT ==> exists rep :: rep in r.reports && !rep.IsObservation() && rep.Effective() == FAULT)
  {
    hide AllPassed, RunResult, FaultResult, FinalResult, Decide, PP.Run, PP.AllObedient;
    var value, seen := PassedReachesParallel(p, ctx, input, end);
    var r := FinalResult(p, value, seen + end.reports);
    RefusalIsFinal(p, value, seen + end.reports);
    PP.SiblingDenyIsNoFault(p.parallel, events, r.reports);
    FinalResultContract(p, value, seen + end.reports);
    ErrorFromDecisionIs(r.reports);
  }
}
