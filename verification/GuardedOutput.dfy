/** Checked delivery and its one-level fallback (guarded_output.go). */
module GuardedOutput {
  import opened Wrappers
  import opened Reports

  /** What Pipeline.Run returns. */
  datatype RunReturn<T> = RunReturn(output: T, reports: seq<Report>, outputKind: int, err: GuardError)

  /** What Run promises: the kind is aggregated, and an error is always a fault that its reports show too. */
  ghost predicate RunContract<T>(r: RunReturn<T>) {
    && r.outputKind == WorstKind(r.reports)
    && (r.err == NoError || (r.err.FaultError? && r.err.failure.disposition == FAULT && Decide(r.reports).Effective() == FAULT))
  }

  /** The caller's classifier: a kind, or an error (also for a panic); `cancelled` is the context seen after it. */
  datatype Classified = Classified(kind: int, failed: bool, cancelled: bool)

  /** Everything one delivery depends on; `attempt` is 0 for the original value and 1 for its fallback. */
  datatype Policy<!T> = Policy(configured: bool, allowed: set<int>, fallback: Option<T>, zero: T,
                               run: (nat, T) -> RunReturn<T>, classify: (nat, T) -> Classified)

  ghost predicate Trusted<T(!new)>(p: Policy<T>) {
    && (forall attempt: nat, value: T :: RunContract(p.run(attempt, value)))
    && (p.configured ==> forall k :: k in p.allowed ==> KindPriority(k) > 0)
  }

  datatype GuardedDelivery<T> = GuardedDelivery(value: T, kind: int, decision: Decision, reports: seq<Report>,
                                                deliverable: bool, fallback: bool)

  // ----- what a delivery promises

  /** The more restrictive of two kinds' priorities. */
  function Worse(a: int, b: int): (priority: int)
    ensures priority >= KindPriority(a) && priority >= KindPriority(b)
    ensures priority == KindPriority(a) || priority == KindPriority(b)
  {
    if KindPriority(a) >= KindPriority(b) then KindPriority(a) else KindPriority(b)
  }

  /** The value passed a full run without any refusal and was classified as an allowed kind, no weaker than observed. */
  ghost predicate Passed<T>(p: Policy<T>, attempt: nat, input: T, value: T, kind: int) {
    var r, c := p.run(attempt, input), p.classify(attempt, p.run(attempt, input).output);
    && r.err == NoError
    && Decide(r.reports).Effective() == NONE
    && value == r.output
    && !c.failed && !c.cancelled && SAFE_TEXT <= c.kind <= TECHNICAL
    && kind in p.allowed
    && KindPriority(kind) == Worse(c.kind, r.outputKind)
  }

  /** The delivery's reports, its decision and the error beside it agree: corrections may be retried, denials not. */
  ghost predicate Consistent<T>(g: GuardedDelivery<T>, err: GuardError) {
    && !err.UnsupportedAction?
    && (err == NoError ==> g.deliverable && !g.fallback && g.decision.disposition == NONE)
    && (err != NoError ==> g.decision.disposition == err.failure.disposition != NONE)
    && (err != NoError ==> (err.failure.IsSystemFault() <==> err.FaultError?))
    && (g.decision.IsSystemFault() <==> err.FaultError?)
    && (err != NoError ==> (err.RetryError? <==> err.failure.disposition == CORRECTION))
    && (err != NoError ==> (err.BlockError? <==> err.failure.disposition == DENY))
    && Decide(g.reports).Effective() == g.decision.disposition
  }

  /** What one attempt reports: everything its run did, and its own verdict when it refuses what the run allowed. */
  ghost predicate OwnReports<T>(p: Policy<T>, attempt: nat, input: T, reports: seq<Report>) {
    var ran := p.run(attempt, input).reports;
    if !p.configured then reports == [FAULT_REPORT]
    else
      || reports == ran
      || (Decide(ran).Effective() == NONE && |reports| == |ran| + 1 && ran <= reports
          && (reports[|ran|].Effective() == DENY || reports[|ran|].Effective() == FAULT))
  }

  /** A fault yields nothing at all. */
  ghost predicate Suppressed<T>(p: Policy<T>, g: GuardedDelivery<T>) {
    g.value == p.zero && !g.deliverable && !g.fallback
  }

  ghost predicate Sound<T>(p: Policy<T>, attempt: nat, input: T, g: GuardedDelivery<T>, err: GuardError) {
    && Consistent(g, err)
    && (err == NoError ==> Passed(p, attempt, input, g.value, g.kind))
    && (err.FaultError? ==> Suppressed(p, g))
    && (err != NoError && !g.deliverable ==> Suppressed(p, g))
    && (err != NoError && g.deliverable ==>
          g.fallback && p.fallback.Some? && Passed(p, attempt + 1, p.fallback.value, g.value, g.kind))
  }

  /** How a delivery attempt comes out, before any fallback is considered. */
  datatype Verdict = Passes | Refuses | Faults

  function Judge<T>(p: Policy<T>, attempt: nat, input: T): Verdict {
    var r := p.run(attempt, input);
    var c, d := p.classify(attempt, r.output), Decide(r.reports).Effective();
    if !p.configured || r.err != NoError || d == FAULT then Faults
    else if d != NONE then Refuses
    else if c.cancelled || c.failed || KindPriority(c.kind) == 0 then Faults
    else if (if KindPriority(r.outputKind) > KindPriority(c.kind) then r.outputKind else c.kind) in p.allowed then Passes
    else Refuses
  }

  /** The verdict in terms of the run and the classification: what passes, what faults, and what is refused. */
  lemma JudgeIff<T(!new)>(p: Policy<T>, attempt: nat, input: T)
    requires Trusted(p)
    ensures var r := p.run(attempt, input);
            var c, d := p.classify(attempt, r.output), Decide(r.reports).Effective();
            var unclassified := c.failed || c.cancelled || !(SAFE_TEXT <= c.kind <= TECHNICAL);
            && (Judge(p, attempt, input) == Passes <==> p.configured && exists kind :: Passed(p, attempt, input, r.output, kind))
            && (Judge(p, attempt, input) == Faults <==> !p.configured || d == FAULT || (d == NONE && unclassified))
            && (Judge(p, attempt, input) == Refuses <==>
                  p.configured
                  && (d == DENY || d == CORRECTION
                      || (d == NONE && !unclassified && forall k :: k in p.allowed ==> KindPriority(k) != Worse(c.kind, r.outputKind))))
  {
    var r := p.run(attempt, input);
    var c := p.classify(attempt, r.output);
    hide Decide, WorstKind;
    assert RunContract(r);
    KindOrder(c.kind, r.outputKind);
    var kind := if KindPriority(r.outputKind) > KindPriority(c.kind) then r.outputKind else c.kind;
    assert KindPriority(kind) == Worse(c.kind, r.outputKind);
    if Judge(p, attempt, input) == Passes {
      assert Passed(p, attempt, input, r.output, kind);
    }
    SamePriority(kind);
  }

  lemma SamePriority(kind: int)
    ensures forall k :: KindPriority(k) == KindPriority(kind) > 0 ==> k == kind
  {
  }

  function JudgeFallback<T>(p: Policy<T>, attempt: nat): Verdict {
    if p.fallback.Some? then Judge(p, attempt + 1, p.fallback.value) else Refuses
  }

  // ----- the operations

  function FromRun<T>(r: RunReturn<T>): GuardedDelivery<T> {
    var d := PolicyDecision(r.reports, r.outputKind);
    GuardedDelivery(r.output, r.outputKind, d, r.reports, d.disposition == NONE, false)
  }

  function Suppress<T>(p: Policy<T>, g: GuardedDelivery<T>): GuardedDelivery<T> {
    g.(value := p.zero, deliverable := false, fallback := false)
  }

  /** A fault added to any reports decides; so does a deny added to reports that allow. */
  lemma AddedVerdict(reports: seq<Report>, added: Report)
    requires !added.IsObservation()
    ensures added.Effective() == FAULT ==> Decide(reports + [added]).Effective() == FAULT
    ensures added.Effective() == DENY && Decide(reports).Effective() == NONE ==> Decide(reports + [added]).Effective() == DENY
  {
    assert [added][..0] == [];
    assert Selected([added]) == Some(added);
    DecideAppend(reports, [added]);
    NormalizedIdempotent(added);
    hide Decide, Selected;
    RankOrder(added, Decide(reports));
    RankOrder(Decide(reports), added);
    NormalizedIdempotent(Decide(reports));
  }

  /** Appending the reports of a passing fallback leaves the refusal that it answers. */
  lemma FallbackKeepsRefusal(blocked: seq<Report>, checked: seq<Report>)
    requires Decide(blocked).Effective() != NONE && Decide(checked).Effective() == NONE
    ensures Decide(blocked + checked).Effective() == Decide(blocked).Effective()
  {
    hide Decide;
    DecideAppend(blocked, checked);
    NormalizedIdempotent(Decide(blocked));
    NormalizedIdempotent(Decide(checked));
  }

  /** deliveryFault. */
  method DeliveryFault<T>(p: Policy<T>, g: GuardedDelivery<T>) returns (out: GuardedDelivery<T>, err: GuardError)
    requires SAFE_TEXT <= g.kind <= TECHNICAL
    ensures Suppressed(p, out) && Consistent(out, err) && err.FaultError?
    ensures out.reports == g.reports + [FAULT_REPORT.(payloadKind := g.kind)]
  {
    var report := FAULT_REPORT.(payloadKind := g.kind);
    AddedVerdict(g.reports, report);
    out := g.(reports := g.reports + [report], decision := DecisionFromReport(Some(report)));
    out := Suppress(p, out);
    err := FaultError(FailureDecision(Some(report.Normalized())));
  }

  /** applyDeliveryPolicy: classification may only restrict what the run observed. */
  method ApplyDeliveryPolicy<T>(p: Policy<T>, attempt: nat, g: GuardedDelivery<T>)
    returns (out: GuardedDelivery<T>, err: GuardError)
    requires SAFE_TEXT <= g.kind <= TECHNICAL && g.decision.disposition == NONE && !g.decision.IsSystemFault() && !g.fallback
    requires Decide(g.reports).Effective() == NONE
    requires forall k :: k in p.allowed ==> KindPriority(k) > 0
    ensures Consistent(out, err) && !err.RetryError? && !out.fallback
    ensures err == NoError ==> out == g.(kind := out.kind, decision := g.decision.(payloadKind := out.kind), deliverable := true)
    ensures err != NoError ==>
              g.reports <= out.reports && |out.reports| == |g.reports| + 1
              && out.reports[|g.reports|].Effective() == err.failure.disposition
    ensures var c := p.classify(attempt, g.value);
            && (err.FaultError? <==> c.cancelled || c.failed || KindPriority(c.kind) == 0)
            && (!err.FaultError? ==>
                  (err == NoError <==> (if KindPriority(g.kind) > KindPriority(c.kind) then g.kind else c.kind) in p.allowed))
    ensures err != NoError ==> Suppressed(p, out)
    ensures var c := p.classify(attempt, g.value);
            err == NoError ==>
              && !c.failed && !c.cancelled && SAFE_TEXT <= c.kind <= TECHNICAL && out.value == g.value && out.kind in p.allowed
              && KindPriority(out.kind) == Worse(c.kind, g.kind)
  {
    var c := p.classify(attempt, g.value);
    if c.cancelled || c.failed || KindPriority(c.kind) == 0 {
      out, err := DeliveryFault(p, g);
      return;
    }
    var kind := c.kind;
    if KindPriority(g.kind) > KindPriority(kind) {
      kind := g.kind;
    }
    if kind in p.allowed {
      out := g.(kind := kind, decision := g.decision.(payloadKind := kind));
      out := out.(deliverable := out.decision.disposition == NONE);
      return out, NoError;
    }
    var rep := Report(BLOCK, NONE, kind, false, false, false, true).Normalized();
    AddedVerdict(g.reports, rep);
    out := g.(kind := kind, reports := g.reports + [rep], decision := DecisionFromReport(Some(rep)));
    out := Suppress(p, out);
    err := BlockError(FailureDecision(Some(rep.Normalized())));
  }

  lemma RunIsClassified<T>(r: RunReturn<T>)
    requires RunContract(r)
    ensures SAFE_TEXT <= r.outputKind <= TECHNICAL
    ensures r.err != NoError ==> r.err.failure.Effective() == FAULT
    ensures var d := PolicyDecision(r.reports, r.outputKind); d.disposition == Decide(r.reports).Effective() == d.Effective()
    ensures !ErrorFromDecision(Decide(r.reports)).UnsupportedAction?
    ensures var e := ErrorFromDecision(Decide(r.reports));
            && (e == NoError <==> Decide(r.reports).Effective() == NONE)
            && (e.FaultError? <==> Decide(r.reports).Effective() == FAULT)
            && (e.RetryError? <==> Decide(r.reports).Effective() == CORRECTION)
            && (e.BlockError? <==> Decide(r.reports).Effective() == DENY)
            && (e != NoError ==> e.failure.disposition == e.failure.Effective() == Decide(r.reports).Effective())
  {
    DecideIsStrongest(r.reports);
    ErrorFromDecisionIs(r.reports);
    RunFailureEffective(Decide(r.reports));
    DecidedKind(r.reports);
  }

  lemma RunFailureEffective(d: Report)
    requires d.Normalized() == d && !d.IsObservation()
    ensures var e := ErrorFromDecision(d); e != NoError && !e.UnsupportedAction? ==> e.failure.Effective() == d.Effective()
  {
  }

  lemma DecidedKind(reports: seq<Report>)
    ensures var d := PolicyDecision(reports, WorstKind(reports)); d.disposition == d.Effective()
  {
    DecideIsStrongest(reports);
  }

  /**
   * GuardDelivery: run, decide, classify; a denied or corrected value may be replaced by one checked fallback.
   * The fallback is itself delivered without a further fallback, so the recursion is one level deep.
   */
  method GuardDelivery<T(!new)>(p: Policy<T>, attempt: nat, output: T) returns (g: GuardedDelivery<T>, err: GuardError)
    requires Trusted(p)
    ensures Sound(p, attempt, output, g, err)
    ensures err == NoError <==> Judge(p, attempt, output) == Passes
    ensures err.FaultError? <==>
              || Judge(p, attempt, output) == Faults
              || (Judge(p, attempt, output) == Refuses && JudgeFallback(p, attempt) == Faults)
    ensures g.fallback <==> Judge(p, attempt, output) == Refuses && JudgeFallback(p, attempt) == Passes
    ensures p.fallback.None? ==> !g.fallback
    ensures err != NoError && !err.FaultError? ==>
              err.failure.disposition ==
              (if Decide(p.run(attempt, output).reports).Effective() != NONE then Decide(p.run(attempt, output).reports).Effective() else DENY)
    ensures err == NoError ==> g.reports == p.run(attempt, output).reports && g.decision.payloadKind == g.kind
    ensures Judge(p, attempt, output) != Refuses || p.fallback.None? || JudgeFallback(p, attempt) == Refuses ==>
              OwnReports(p, attempt, output, g.reports)
    ensures Judge(p, attempt, output) == Refuses && p.fallback.Some? && JudgeFallback(p, attempt) == Faults ==>
              OwnReports(p, attempt + 1, p.fallback.value, g.reports)
    ensures g.fallback ==> exists own :: OwnReports(p, attempt, output, own)
                                         && g.reports == own + p.run(attempt + 1, p.fallback.value).reports
    decreases if p.fallback.Some? then 1 else 0, 1
  {
    hide Decide, PolicyDecision, ErrorFromDecision, WorstKind, KindPriority, Worse, Decision.Effective;
    if !p.configured {
      g := GuardedDelivery(p.zero, SAFE_TEXT, PASS_DECISION, [], true, false);
      g, err := DeliveryFault(p, g);
      return;
    }
    var result := p.run(attempt, output);
    assert RunContract(result);
    RunIsClassified(result);
    g := FromRun(result);
    if result.err != NoError {
      return Suppress(p, g), result.err;
    }
    var decErr := ErrorFromDecision(Decide(result.reports));
    if decErr != NoError {
      if PolicyDecision(result.reports, result.outputKind).IsSystemFault() {
        return Suppress(p, g), decErr;
      }
      assert OwnReports(p, attempt, output, g.reports);
      g, err := CheckedFallback(p, attempt, g, decErr);
      return;
    }
    g, err := ApplyDeliveryPolicy(p, attempt, g);
    if err != NoError {
      if g.decision.IsSystemFault() {
        return;
      }
      assert OwnReports(p, attempt, output, g.reports);
      g, err := CheckedFallback(p, attempt, g, err);
    }
  }

  /** checkedDeliveryFallback, with the original error its caller returns when the fallback does not fault. */
  method CheckedFallback<T(!new)>(p: Policy<T>, attempt: nat, blocked: GuardedDelivery<T>, original: GuardError)
    returns (g: GuardedDelivery<T>, err: GuardError)
    requires Trusted(p) && original != NoError && !original.FaultError?
    requires Consistent(blocked, original)
    ensures Consistent(g, err) && err != NoError
    ensures err == original || err.FaultError?
    ensures err.FaultError? <==> JudgeFallback(p, attempt) == Faults
    ensures g.fallback <==> JudgeFallback(p, attempt) == Passes
    ensures !g.deliverable ==> Suppressed(p, g)
    ensures err.FaultError? ==> !g.deliverable
    ensures g.deliverable ==>
              g.fallback && p.fallback.Some? && Passed(p, attempt + 1, p.fallback.value, g.value, g.kind)
    ensures p.fallback.None? ==> !g.fallback
    ensures JudgeFallback(p, attempt) == Refuses ==> g.reports == blocked.reports
    ensures g.fallback ==> g.reports == blocked.reports + p.run(attempt + 1, p.fallback.value).reports
    ensures err.FaultError? ==> OwnReports(p, attempt + 1, p.fallback.value, g.reports)
    decreases if p.fallback.Some? then 1 else 0, 0
  {
    if p.fallback.None? {
      return Suppress(p, blocked), original;
    }
    var checked, checkedErr := GuardDelivery(p.(fallback := None), attempt + 1, p.fallback.value);
    if checkedErr != NoError || !checked.deliverable {
      if checked.decision.IsSystemFault() {
        return Suppress(p, checked), checkedErr;
      }
      return Suppress(p, blocked), original;
    }
    FallbackKeepsRefusal(blocked.reports, checked.reports);
    g := blocked.(value := checked.value, kind := checked.kind, deliverable := true, fallback := true,
                  reports := blocked.reports + checked.reports);
    err := original;
  }
}
