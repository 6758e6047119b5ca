/** Error trees: which are nothing but cancellation, and what evidence they carry (errors.go, completed_observations.go). */
module Errors {
  import opened Wrappers
  import opened Reports

  /** An error as its Unwrap methods show it. */
  datatype Err =
    | Canceled
    | DeadlineExceeded
    | Plain                                            // no Unwrap method
    | Wrapped(inner: Option<Err>)                      // Unwrap() error; nil is possible
    | Joined(branches: seq<Err>)                       // Unwrap() []error
    | Panicked(value: Option<Err>)                     // ValidatorPanicError; the value may itself be an error
    | Faulted(cause: Err)                              // ValidatorFaultError with its failure's cause
    | Carrier(origin: Err, completed: Report)          // CompletedObservationsError

  // ----- cancellation

  /** errors.Is against context.Canceled. */
  predicate IsCanceled(e: Err) {
    match e
    case Canceled => true
    case DeadlineExceeded => false
    case Plain => false
    case Wrapped(inner) => inner.Some? && IsCanceled(inner.value)
    case Joined(branches) => exists b :: b in branches && IsCanceled(b)
    case Panicked(value) => value.Some? && IsCanceled(value.value)
    case Faulted(cause) => IsCanceled(cause)
    case Carrier(origin, _) => IsCanceled(origin)
  }

  /** cancellationOnly: no independent failure hides anywhere in the tree. */
  predicate CancellationOnly(e: Err) {
    match e
    case Canceled => true
    case DeadlineExceeded => true
    case Plain => false
    case Wrapped(inner) => inner.Some? && CancellationOnly(inner.value)
    case Joined(branches) => branches != [] && forall b :: b in branches ==> CancellationOnly(b)
    case Panicked(_) => false
    case Faulted(cause) => CancellationOnly(cause)
    case Carrier(origin, _) => CancellationOnly(origin)
  }

  /** What unwrapping a node leads to. */
  function Below(e: Err): seq<Err> {
    match e
    case Wrapped(inner) => if inner.Some? then [inner.value] else []
    case Joined(branches) => branches
    case Panicked(value) => if value.Some? then [value.value] else []
    case Faulted(cause) => [cause]
    case Carrier(origin, _) => [origin]
    case _ => []
  }

  /** A failure of its own: a panic, whatever its value, or an end of unwrapping that is no context error. */
  predicate Offends(e: Err) {
    e.Panicked? || (Below(e) == [] && e != Canceled && e != DeadlineExceeded)
  }

  /** Unwrapping e along a path of branch numbers ends at node. */
  predicate Reaches(e: Err, path: seq<nat>, node: Err)
    decreases |path|
  {
    if path == [] then e == node
    else path[0] < |Below(e)| && Reaches(Below(e)[path[0]], path[1..], node)
  }

  /** Some unwrap path leads to an offending node. */
  ghost predicate HidesFailure(e: Err) {
    exists path: seq<nat>, node: Err :: Reaches(e, path, node) && Offends(node)
  }

  /** An error is nothing but cancellation exactly when no unwrap path, however deep, leads to a failure. */
  lemma CancellationOnlyIff(e: Err)
    ensures CancellationOnly(e) <==> !HidesFailure(e)
  {
    if path: seq<nat>, node: Err :| Reaches(e, path, node) && Offends(node) {
      NoPathToFailure(e, path, node);
    }
    if !CancellationOnly(e) {
      var path, node := PathToFailure(e);
    }
  }

  lemma {:induction false} NoPathToFailure(e: Err, path: seq<nat>, node: Err)
    requires Reaches(e, path, node)
    ensures CancellationOnly(e) ==> !Offends(node)
    decreases |path|
  {
    if path != [] {
      NoPathToFailure(Below(e)[path[0]], path[1..], node);
    }
  }

  lemma {:induction false} PathToFailure(e: Err) returns (path: seq<nat>, node: Err)
    requires !CancellationOnly(e)
    ensures Reaches(e, path, node) && Offends(node)
  {
    if Offends(e) {
      return [], e;
    }
    var i: nat :| i < |Below(e)| && !CancellationOnly(Below(e)[i]);
    var rest;
    rest, node := PathToFailure(Below(e)[i]);
    path := [i] + rest;
    assert path[1..] == rest;
  }

  /** Some unwrap path leads to context.Canceled. */
  ghost predicate LeadsToCanceled(e: Err) {
    exists path: seq<nat> :: Reaches(e, path, Canceled)
  }

  /** errors.Is finds a cancellation exactly when some unwrap path leads to one. */
  lemma CanceledIff(e: Err)
    ensures IsCanceled(e) <==> LeadsToCanceled(e)
  {
    hide IsCanceled, Reaches;
    if path: seq<nat> :| Reaches(e, path, Canceled) {
      PathIsCanceled(e, path);
    }
    if IsCanceled(e) {
      var path := PathToCanceled(e);
      assert LeadsToCanceled(e);
    }
  }

  lemma {:induction false} PathIsCanceled(e: Err, path: seq<nat>)
    requires Reaches(e, path, Canceled)
    ensures IsCanceled(e)
    decreases |path|
  {
    if path != [] {
      PathIsCanceled(Below(e)[path[0]], path[1..]);
    }
  }

  lemma {:induction false} PathToCanceled(e: Err) returns (path: seq<nat>)
    requires IsCanceled(e)
    ensures Reaches(e, path, Canceled)
  {
    if e == Canceled {
      return [];
    }
    var i: nat :| i < |Below(e)| && IsCanceled(Below(e)[i]);
    var rest := PathToCanceled(Below(e)[i]);
    path := [i] + rest;
    assert path[1..] == rest;
  }

  /** errors.Join of a callback's error, if any, with the context's. */
  function WithContext(e: Option<Err>, ctx: Option<Err>): Option<Err> {
    if ctx.None? then e
    else if e.None? then Some(Joined([ctx.value]))
    else Some(Joined([e.value, ctx.value]))
  }

  /** Joining a context error cannot turn a failure into a cancellation, nor the other way round. */
  lemma JoinKeepsFailure(e: Err, ctx: Err)
    requires ctx == Canceled || ctx == DeadlineExceeded
    ensures CancellationOnly(Joined([e, ctx])) <==> CancellationOnly(e)
    ensures CancellationOnly(Joined([ctx]))
    ensures ctx == Canceled ==> IsCanceled(Joined([e, ctx])) && IsCanceled(Joined([ctx]))
  {
    assert e in [e, ctx] && ctx in [e, ctx] && ctx in [ctx];
  }

  /** The joined error is there when either part is, and unwraps to both. */
  lemma WithContextIs(e: Option<Err>, ctx: Option<Err>)
    ensures WithContext(e, ctx).None? <==> e.None? && ctx.None?
    ensures e.Some? ==> if ctx.None? then WithContext(e, ctx) == e else Reaches(WithContext(e, ctx).value, [0], e.value)
    ensures ctx.Some? ==> Reaches(WithContext(e, ctx).value, [if e.Some? then 1 else 0], ctx.value)
  {
    if ctx.Some? {
      var joined := WithContext(e, ctx).value;
      assert [if e.Some? then 1 else 0][1..] == [] && [0][1..] == [];
    }
  }

  // ----- evidence

  /** The completed reports that e's outermost carriers attest. */
  function Collected(e: Err): seq<Option<Report>>
    decreases e, 0
  {
    match e
    case Wrapped(inner) => if inner.Some? then Collected(inner.value) else []
    case Joined(branches) => CollectedAll(branches)
    case Panicked(value) => if value.Some? then Collected(value.value) else []
    case Faulted(cause) => Collected(cause)
    case Carrier(_, completed) => [Some(completed)]
    case _ => []
  }

  function CollectedAll(es: seq<Err>): seq<Option<Report>>
    decreases es, 0
  {
    if es == [] then [] else CollectedAll(es[..|es| - 1]) + Collected(es[|es| - 1])
  }

  /** collectCompletedReports, appending to what its caller has collected so far. */
  method CollectCompletedReports(e: Err, reports: seq<Option<Report>>) returns (out: seq<Option<Report>>)
    ensures out == reports + Collected(e)
    decreases e
  {
    out := reports;
    match e
    case Carrier(_, completed) => out := out + [Some(completed)];
    case Joined(branches) =>
      for i := 0 to |branches|
        invariant out == reports + CollectedAll(branches[..i])
      {
        assert branches[..i + 1][..i] == branches[..i];
        out := CollectCompletedReports(branches[i], out);
      }
      assert branches[..|branches|] == branches;
    case Wrapped(inner) =>
      if inner.Some? {
        out := CollectCompletedReports(inner.value, out);
      }
    case Panicked(value) =>
      if value.Some? {
        out := CollectCompletedReports(value.value, out);
      }
    case Faulted(cause) => out := CollectCompletedReports(cause, out);
    case Canceled =>
    case DeadlineExceeded =>
    case Plain =>
  }

  /** CompletedReportFromError. */
  function CompletedReport(e: Err): Option<Report> {
    if Collected(e) == [] then None else Some(Compose(Collected(e)))
  }

  /** WithCompletedObservations on a cause that is present. */
  function WithCompleted(cause: Err, given: seq<Option<Report>>): Err {
    var reports := given + [CompletedReport(cause)];
    if exists r :: r in reports && r.Some? then Carrier(cause, Compose(reports)) else cause
  }

  /** How an error came about: carriers can only be made by WithCompletedObservations. */
  datatype Origin =
    | LeafOf(leaf: Err)
    | WrapOf(inner: Origin)
    | JoinOf(branches: seq<Origin>)
    | PanicOf(value: Option<Origin>)
    | FaultOf(cause: Origin)
    | AttachTo(cause: Origin, given: seq<Option<Report>>)

  predicate IsLeaf(e: Err) {
    e.Canceled? || e.DeadlineExceeded? || e.Plain? || e == Wrapped(None)
  }

  function Build(o: Origin): Err
    decreases o, 0
  {
    match o
    case LeafOf(leaf) => if IsLeaf(leaf) then leaf else Plain
    case WrapOf(inner) => Wrapped(Some(Build(inner)))
    case JoinOf(branches) => Joined(BuildAll(branches))
    case PanicOf(value) => Panicked(if value.Some? then Some(Build(value.value)) else None)
    case FaultOf(cause) => Faulted(Build(cause))
    case AttachTo(cause, given) => WithCompleted(Build(cause), given)
  }

  function BuildAll(os: seq<Origin>): (es: seq<Err>)
    ensures |es| == |os|
    decreases os, 0
  {
    if os == [] then [] else BuildAll(os[..|os| - 1]) + [Build(os[|os| - 1])]
  }

  /** Every report that was ever attested anywhere in the tree, at any depth. */
  function Attested(o: Origin): seq<Option<Report>>
    decreases o, 0
  {
    match o
    case LeafOf(_) => []
    case WrapOf(inner) => Attested(inner)
    case JoinOf(branches) => AttestedAll(branches)
    case PanicOf(value) => if value.Some? then Attested(value.value) else []
    case FaultOf(cause) => Attested(cause)
    case AttachTo(cause, given) => given + Attested(cause)
  }

  function AttestedAll(os: seq<Origin>): seq<Option<Report>>
    decreases os, 0
  {
    if os == [] then [] else AttestedAll(os[..|os| - 1]) + Attested(os[|os| - 1])
  }

  lemma {:induction false} NoneIsWeakest(reports: seq<Option<Report>>)
    requires forall r :: r in reports ==> r.None?
    ensures JoinAll(reports) == WEAKEST
  {
    if reports != [] {
      assert reports[0] in reports;
      NoneIsWeakest(reports[1..]);
    }
  }

  lemma CompletedStrength(e: Err)
    ensures OptionStrength(CompletedReport(e)) == JoinAll(Collected(e))
  {
    ComposeIsJoin(Collected(e));
  }

  /** Evidence is conserved: what an error reports is the join of everything attested while it was built. */
  lemma {:induction false} EvidenceConserved(o: Origin)
    ensures JoinAll(Collected(Build(o))) == JoinAll(Attested(o))
    decreases o, 0
  {
    hide JoinAll, WithCompleted, Compose;
    match o
    case LeafOf(_) =>
    case WrapOf(inner) => EvidenceConserved(inner);
    case JoinOf(branches) => EvidenceConservedAll(branches);
    case PanicOf(value) => if value.Some? { EvidenceConserved(value.value); }
    case FaultOf(cause) => EvidenceConserved(cause);
    case AttachTo(cause, given) =>
      EvidenceConserved(cause);
      AttachConserves(Build(cause), given);
      JoinAllAppend(given, Attested(cause));
  }

  lemma AttachConserves(cause: Err, given: seq<Option<Report>>)
    ensures JoinAll(Collected(WithCompleted(cause, given))) == Join(JoinAll(given), JoinAll(Collected(cause)))
  {
    hide Compose, Collected, JoinAll, StrengthOf;
    var reports := given + [CompletedReport(cause)];
    CompletedStrength(cause);
    JoinAllSnoc(given, CompletedReport(cause));
    if exists r :: r in reports && r.Some? {
      ComposeIsJoin(reports);
      CollectedCarrier(cause, Compose(reports));
    } else {
      assert CompletedReport(cause) in reports;
      NoneIsWeakest(given);
      JoinAllBounds(Collected(cause));
    }
  }

  lemma CollectedCarrier(cause: Err, completed: Report)
    ensures JoinAll(Collected(Carrier(cause, completed))) == StrengthOf(completed)
  {
    var one := [Some(completed)];
    assert one[1..] == [];
  }

  lemma {:induction false} EvidenceConservedAll(os: seq<Origin>)
    ensures JoinAll(CollectedAll(BuildAll(os))) == JoinAll(AttestedAll(os))
    decreases os, 0
  {
    if os != [] {
      var front, last := os[..|os| - 1], os[|os| - 1];
      EvidenceConservedAll(front);
      EvidenceConserved(last);
      var es := BuildAll(os);
      assert es[..|es| - 1] == BuildAll(front);
      JoinAllAppend(CollectedAll(BuildAll(front)), Collected(Build(last)));
      JoinAllAppend(AttestedAll(front), Attested(last));
    }
  }

  lemma {:induction false} JoinAllAbove(reports: seq<Option<Report>>, r: Option<Report>)
    requires r in reports
    ensures OptionStrength(r).rank <= JoinAll(reports).rank && OptionStrength(r).kind <= JoinAll(reports).kind
  {
    if r != reports[0] {
      assert r in reports[1..];
      JoinAllAbove(reports[1..], r);
    }
  }

  /** Each attested report, however deeply wrapped, bounds what the error reports from below. */
  lemma EveryAttestedReportCounts(o: Origin, r: Report)
    requires Some(r) in Attested(o)
    ensures CompletedReport(Build(o)).Some? || StrengthOf(r) == WEAKEST
    ensures ClampedKind(r) <= OptionStrength(CompletedReport(Build(o))).kind
    ensures StrengthOf(r).rank <= OptionStrength(CompletedReport(Build(o))).rank
  {
    EvidenceConserved(o);
    CompletedStrength(Build(o));
    JoinAllAbove(Attested(o), Some(r));
    JoinAllBounds([Some(r)]);
  }

  // ----- fault results

  /** appendCompletedObservations. */
  function AppendCompleted(reports: seq<Report>, cause: Err): seq<Report> {
    if CompletedReport(cause).Some? then reports + [CompletedReport(cause).value.Normalized()] else reports
  }

  /** What one callback adds to the run's reports: its report if it completed, else what its error attests. */
  function Evidence(rep: Option<Report>, err: Option<Err>): Option<Report> {
    var r := if err.Some? then CompletedReport(err.value) else rep;
    if r.Some? then Some(r.value.Normalized()) else None
  }

  lemma AppendIsEvidence(reports: seq<Report>, rep: Option<Report>, e: Err)
    ensures AppendCompleted(reports, e) ==
            if Evidence(rep, Some(e)).Some? then reports + [Evidence(rep, Some(e)).value] else reports
  {
  }

  /** A failed callback's evidence is at least as restrictive as what its error attests. */
  lemma EvidenceCovers(e: Err, rep: Option<Report>, ctx: Option<Err>)
    ensures var left, kind := Evidence(rep, WithContext(Some(e), ctx)), JoinAll(Collected(e)).kind;
            SAFE_TEXT <= kind && (kind == SAFE_TEXT || (left.Some? && kind <= ClampedKind(left.value)))
  {
    var err := WithContext(Some(e), ctx).value;
    JoinedCarriesFirst(e, ctx);
    JoinAllBounds(Collected(e));
    CompletedStrength(err);
    if CompletedReport(err).Some? {
      NormalizedIdempotent(CompletedReport(err).value);
    }
  }

  /** In particular as every report attested anywhere while the error was built. */
  lemma AttestedIsCovered(o: Origin, rep: Option<Report>, ctx: Option<Err>, r: Report)
    requires Some(r) in Attested(o)
    ensures var left := Evidence(rep, WithContext(Some(Build(o)), ctx));
            ClampedKind(r) == SAFE_TEXT || (left.Some? && ClampedKind(r) <= ClampedKind(left.value))
  {
    EvidenceCovers(Build(o), rep, ctx);
    EvidenceConserved(o);
    JoinAllAbove(Attested(o), Some(r));
  }

  lemma JoinedCarriesFirst(e: Err, ctx: Option<Err>)
    ensures JoinAll(Collected(WithContext(Some(e), ctx).value)).kind >= JoinAll(Collected(e)).kind
  {
    if ctx.Some? {
      var pair := [e, ctx.value];
      assert pair[..1] == [e] && [e][..0] == [];
      assert CollectedAll(pair) == CollectedAll([e]) + Collected(ctx.value) && CollectedAll([e]) == Collected(e);
      JoinAllAppend(Collected(e), Collected(ctx.value));
    }
  }

  /** The reports of validatorFaultResult. */
  function FaultReports(reports: seq<Report>): seq<Report> { reports + [FAULT_REPORT] }

  /** A fault's output kind is at least that of every check completed before it, also inside nested pipelines. */
  lemma FaultKindCoversEvidence(reports: seq<Report>, o: Origin, r: Report)
    requires r in reports || Some(r) in Attested(o)
    ensures ClampedKind(r) <= WorstKind(FaultReports(AppendCompleted(reports, Build(o))))
    ensures Decide(FaultReports(reports)).Effective() == FAULT
  {
    var cause := Build(o);
    var all := FaultReports(AppendCompleted(reports, cause));
    if r in reports {
      assert r in all;
    } else {
      EveryAttestedReportCounts(o, r);
      var c := CompletedReport(cause);
      if c.Some? {
        ComposeIsJoin(Collected(cause));
        assert c.value.Normalized() in all;
      }
    }
    DecideIsStrongest(FaultReports(reports));
    NormalizedIdempotent(Decide(FaultReports(reports)));
    assert FAULT_REPORT in FaultReports(reports);
  }

  // ----- evidence in errors of any origin

  predicate Above(a: Strength, b: Strength) { b.rank <= a.rank && b.kind <= a.kind }

  /** An error as carriers make it: each attests at least what its origin does. Carriers are made nowhere else. */
  ghost predicate Genuine(e: Err) {
    match e
    case Wrapped(inner) => inner.Some? ==> Genuine(inner.value)
    case Joined(branches) => forall b :: b in branches ==> Genuine(b)
    case Panicked(value) => value.Some? ==> Genuine(value.value)
    case Faulted(cause) => Genuine(cause)
    case Carrier(origin, completed) => Genuine(origin) && Above(StrengthOf(completed), JoinAll(Collected(origin)))
    case _ => true
  }

  /** Attaching evidence makes genuine carriers. */
  lemma AttachIsGenuine(cause: Err, given: seq<Option<Report>>)
    requires Genuine(cause)
    ensures Genuine(WithCompleted(cause, given))
  {
    AttachConserves(cause, given);
    var e := WithCompleted(cause, given);
    if e.Carrier? {
      CollectedCarrier(cause, e.completed);
    }
  }

  lemma {:induction false} CollectedAllCovers(es: seq<Err>, k: nat)
    requires k < |es|
    ensures Above(JoinAll(CollectedAll(es)), JoinAll(Collected(es[k])))
    decreases |es|
  {
    hide JoinAll, Collected;
    var front := es[..|es| - 1];
    JoinAllAppend(CollectedAll(front), Collected(es[|es| - 1]));
    if k < |es| - 1 {
      CollectedAllCovers(front, k);
    }
  }

  /** Whatever is wrapped, joined, panicked or faulted around a genuine error, its evidence stays visible at the top. */
  lemma {:induction false} EvidenceSurvives(e: Err, path: seq<nat>, node: Err)
    requires Genuine(e) && Reaches(e, path, node)
    ensures Genuine(node) && Above(JoinAll(Collected(e)), JoinAll(Collected(node)))
    decreases |path|
  {
    if path != [] {
      var below := Below(e)[path[0]];
      EvidenceSurvives(below, path[1..], node);
      if e.Joined? {
        CollectedAllCovers(e.branches, path[0]);
      } else if e.Carrier? {
        CollectedCarrier(e.origin, e.completed);
      }
    }
  }

  function Somes(reports: seq<Report>): (r: seq<Option<Report>>)
    ensures |r| == |reports| && forall i :: 0 <= i < |r| ==> r[i] == Some(reports[i])
  {
    seq(|reports|, i requires 0 <= i < |reports| => Some(reports[i]))
  }

  /** The error of validatorFaultResult: it attests every report the run had when it faulted. */
  function FaultErr(cause: Err, seen: seq<Report>): Err { Faulted(WithCompleted(cause, Somes(seen))) }

  lemma FaultErrAttests(cause: Err, seen: seq<Report>)
    ensures Above(JoinAll(Collected(FaultErr(cause, seen))), JoinAll(Collected(cause)))
    ensures forall r :: r in seen ==> Above(JoinAll(Collected(FaultErr(cause, seen))), StrengthOf(r))
    ensures Genuine(cause) ==> Genuine(FaultErr(cause, seen))
  {
    hide JoinAll, WithCompleted, StrengthOf;
    AttachConserves(cause, Somes(seen));
    if Genuine(cause) {
      AttachIsGenuine(cause, Somes(seen));
    }
    forall r | r in seen
      ensures Above(JoinAll(Collected(FaultErr(cause, seen))), StrengthOf(r))
    {
      var i :| 0 <= i < |seen| && seen[i] == r;
      assert Somes(seen)[i] == Some(r);
      JoinAllAbove(Somes(seen), Some(r));
    }
  }
}
