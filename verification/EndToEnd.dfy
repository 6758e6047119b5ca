/** From a check's verdict to the transport: the pipeline's and the stream's theorems together (pipeline.go, release.go). */
module EndToEnd {
  import opened Wrappers
  import opened Utf8
  import opened Errors
  import opened GuardedOutput
  import opened ReleaseSpec
  import opened Pipelines
  import Reports
  import PP = ParallelPhase
  import RT = ReleaseTheorems

  /** What one run depends on besides its input: scope, contexts, and how its parallel phase unfolded. */
  datatype Occasion = Occasion(scope: Option<Err>, ctx: Clock, events: seq<PP.Event>, end: PP.State)

  /** Unit n is guarded by a run of the pipeline. */
  ghost predicate RunsPipeline(p: Pipeline<bytes>, policy: nat -> Policy<bytes>, occasion: (nat, bytes) -> Occasion) {
    forall n: nat, unit: bytes :: RunsPipelineAt(p, policy, occasion(n, unit), n, unit)
  }

  ghost predicate RunsPipelineAt(p: Pipeline<bytes>, policy: nat -> Policy<bytes>, o: Occasion, n: nat, unit: bytes) {
    EndOfParallel(p, o.events, o.end) && policy(n).run(0, unit) == RunResult(p, o.scope, o.ctx, unit, o.end)
  }

  /** Every check passed: scope complete, both sequential phases in time, all parallel checks benign; the value is the transform. */
  ghost predicate FullyChecked(p: Pipeline<bytes>, o: Occasion, unit: bytes, value: bytes) {
    var mid := Transformed(p.sequential, unit);
    && o.scope.None? && o.end.parent.None?
    && AllPassed(p.sequential, o.ctx, 0, unit)
    && AllPassed(p.policies, o.ctx, 2 * |p.sequential|, mid)
    && (forall i :: 0 <= i < p.parallel ==> i < |o.end.answers| && o.end.answers[i].Some? && PP.Benign(o.end.answers[i].value))
    && value == Transformed(p.policies, mid)
  }

  lemma PassedIsFullyChecked(p: Pipeline<bytes>, policy: nat -> Policy<bytes>, o: Occasion, n: nat, unit: bytes, value: bytes, kind: int)
    requires RunsPipelineAt(p, policy, o, n, unit) && Passed(policy(n), 0, unit, value, kind)
    ensures FullyChecked(p, o, unit, value)
  {
    var r := RunResult(p, o.scope, o.ctx, unit, o.end);
    assert Allows(r) by {
      hide RunResult;
      Reports.ErrorFromDecisionIs(r.reports);
    }
    AllowedRun(p, o.scope, o.ctx, unit, o.events, o.end);
    assert |o.end.answers| == p.parallel;
  }

  /**
   * For every input and every split of it, the transport only ever receives a prefix of the transformed leading
   * units, in order, each after all of its sequential, policy and parallel checks passed.
   */
  lemma SinkIsFullyChecked(cfg: Config, p: Pipeline<bytes>, policy: nat -> Policy<bytes>, occasion: (nat, bytes) -> Occasion,
                           writes: seq<bytes>)
    requires cfg.Compiled() && RT.GuardedBy(cfg, policy) && RunsPipeline(p, policy, occasion)
    ensures var units := RT.Units(cfg, RT.Concat(writes));
            var values := RT.ApprovedValues(cfg, 0, units);
            && RT.Run(cfg, writes).sink <= RT.Joined(values)
            && forall i :: 0 <= i < |values| ==> FullyChecked(p, occasion(i, units[i]), units[i], values[i])
  {
    hide RT.GuardedBy, FullyChecked, RT.Run, RT.Units;
    RT.OnlyPassedValuesReachSink(cfg, policy, writes);
    var units := RT.Units(cfg, RT.Concat(writes));
    var values := RT.ApprovedValues(cfg, 0, units);
    forall i | 0 <= i < |values|
      ensures FullyChecked(p, occasion(i, units[i]), units[i], values[i])
    {
      assert RT.PassedUnit(cfg, policy, i, units[i], values[i]);
      var kind :| Passed(policy(i), 0, units[i], values[i], kind);
      assert RunsPipelineAt(p, policy, occasion(i, units[i]), i, units[i]);
      PassedIsFullyChecked(p, policy, occasion(i, units[i]), i, units[i], values[i], kind);
    }
  }
}
