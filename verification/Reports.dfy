/**
 * Reports, how they are classified, and how many of them become one decision
 * (disposition.go, payload.go, guardy.go, decision.go, errors.go).
 */
module Reports {
  import opened Wrappers

  // Go's named integer types: any value can occur, only some are defined.
  const PASS := 0
  const BLOCK := 1
  const REDACT := 2
  const RETRY := 3

  const NONE := 0
  const DENY := 1
  const CORRECTION := 2
  const FAULT := 3

  const SAFE_TEXT := 0
  const INTERNAL_SIGNAL := 1
  const TECHNICAL := 2

  datatype Report = Report(action: int, disposition: int, payloadKind: int,
                           fatal: bool, retryable: bool, shadow: bool, scoreFinite: bool)
  {
    /** DeriveDisposition without a system error. */
    function Derived(): int {
      if action == BLOCK then DENY
      else if action == RETRY then (if fatal then DENY else if retryable then CORRECTION else DENY)
      else if action == PASS || action == REDACT then (if fatal then DENY else NONE)
      else FAULT
    }

    predicate WellFormed() {
      PASS <= action <= RETRY && NONE <= disposition <= FAULT && SAFE_TEXT <= payloadKind <= TECHNICAL && scoreFinite
    }

    /** effectiveDisposition. */
    function Effective(): (d: int)
      ensures NONE <= d <= FAULT
    {
      if !WellFormed() then FAULT
      else if disposition == FAULT then FAULT
      else if disposition == CORRECTION && action != RETRY then FAULT
      else if fatal || disposition == DENY then DENY
      else if disposition == CORRECTION then CORRECTION
      else Derived()
    }

    predicate IsObservation() {
      shadow && action == BLOCK && !fatal && Effective() == DENY
    }

    /** normalizeReport on a report that is present. */
    function Normalized(): Report {
      this.(disposition := Effective())
    }

    /** reportPriority. */
    function Rank(): (r: int)
      ensures PRIORITY_PASS <= r <= PRIORITY_FAULT
    {
      if Effective() == FAULT then PRIORITY_FAULT
      else if Effective() == DENY then
        (if action == BLOCK then PRIORITY_BLOCK else if action == RETRY then PRIORITY_NON_RETRYABLE else PRIORITY_FATAL)
      else if Effective() == CORRECTION then PRIORITY_RETRY
      else if action == REDACT then PRIORITY_REDACT
      else PRIORITY_PASS
    }
  }

  const PRIORITY_PASS := 1
  const PRIORITY_REDACT := 2
  const PRIORITY_RETRY := 3
  const PRIORITY_FATAL := 4
  const PRIORITY_NON_RETRYABLE := 5
  const PRIORITY_BLOCK := 6
  const PRIORITY_FAULT := 7

  const PASS_REPORT := Report(PASS, NONE, SAFE_TEXT, false, false, false, true)

  /** payloadKindPriority. */
  function KindPriority(k: int): int {
    if k == TECHNICAL then 3 else if k == INTERNAL_SIGNAL then 2 else if k == SAFE_TEXT then 1 else 0
  }

  /** The control-flow class that each rank belongs to. */
  function RankDisposition(rank: int): int {
    if rank >= PRIORITY_FAULT then FAULT
    else if rank >= PRIORITY_FATAL then DENY
    else if rank == PRIORITY_RETRY then CORRECTION
    else NONE
  }

  // ----- the two loops

  /** The report that Decision's scan has selected after all of reports: the last of the highest rank. */
  function Selected(reports: seq<Report>): Option<Report> {
    if reports == [] then None
    else
      var sofar, r := Selected(reports[..|reports| - 1]), reports[|reports| - 1];
      if r.IsObservation() then sofar
      else if sofar.None? || r.Rank() >= sofar.value.Rank() then Some(r)
      else sofar
  }

  function Decide(reports: seq<Report>): Report {
    if Selected(reports).Some? then Selected(reports).value.Normalized() else PASS_REPORT
  }

  /** RunResult.Decision. */
  method RunDecision(reports: seq<Report>) returns (decided: Report)
    ensures decided == Decide(reports)
  {
    var selected: Option<Report> := None;
    var priority := 0;
    for i := 0 to |reports|
      invariant selected == Selected(reports[..i])
      invariant priority == if selected.Some? then selected.value.Rank() else 0
    {
      assert reports[..i + 1][..i] == reports[..i];
      var rep := reports[i];
      if rep.IsObservation() {
        continue;
      }
      var rank := rep.Rank();
      if rank >= priority {
        selected, priority := Some(rep), rank;
      }
    }
    assert reports[..|reports|] == reports;
    if selected.Some? {
      return selected.value.Normalized();
    }
    return PASS_REPORT;
  }

  /** A kind no destination defines counts as the least restrictive. */
  function ClampedKind(r: Report): (k: int)
    ensures SAFE_TEXT <= k <= TECHNICAL
    ensures SAFE_TEXT <= r.payloadKind <= TECHNICAL ==> k == r.payloadKind
    ensures !(SAFE_TEXT <= r.payloadKind <= TECHNICAL) ==> k == SAFE_TEXT
  {
    if r.payloadKind == INTERNAL_SIGNAL || r.payloadKind == TECHNICAL then r.payloadKind else SAFE_TEXT
  }

  /** The most restrictive kind of any report. */
  function WorstKind(reports: seq<Report>): (k: int)
    ensures SAFE_TEXT <= k <= TECHNICAL
    ensures forall r :: r in reports ==> ClampedKind(r) <= k
    ensures k == SAFE_TEXT || exists r :: r in reports && ClampedKind(r) == k
  {
    if reports == [] then SAFE_TEXT
    else
      var sofar, r := WorstKind(reports[..|reports| - 1]), reports[|reports| - 1];
      assert reports == reports[..|reports| - 1] + [r];
      if ClampedKind(r) > sofar then ClampedKind(r) else sofar
  }

  method AggregatePayloadKind(reports: seq<Report>) returns (best: int)
    ensures best == WorstKind(reports)
  {
    hide WorstKind, ClampedKind;
    WorstKindStep(reports, 0);
    best := SAFE_TEXT;
    for i := 0 to |reports|
      invariant best == WorstKind(reports[..i])
    {
      WorstKindStep(reports, i);
      ClampedIsMax(reports[i], best);
      var k := reports[i].payloadKind;
      if k == SAFE_TEXT {
        continue;
      }
      if KindPriority(k) > KindPriority(best) {
        best := k;
      }
    }
    assert reports[..|reports|] == reports;
  }

  lemma WorstKindStep(reports: seq<Report>, i: nat)
    requires i <= |reports|
    ensures WorstKind(reports[..0]) == SAFE_TEXT
    ensures i < |reports| ==>
              var sofar, r := WorstKind(reports[..i]), reports[i];
              WorstKind(reports[..i + 1]) == if ClampedKind(r) > sofar then ClampedKind(r) else sofar
  {
    hide ClampedKind;
    if i < |reports| {
      assert reports[..i + 1][..i] == reports[..i];
    }
  }

  /** Technical payload is worse than an internal signal, that than safe text, and that than what is no kind at all. */
  lemma KindOrder(a: int, b: int)
    ensures KindPriority(a) > 0 <==> SAFE_TEXT <= a <= TECHNICAL
    ensures SAFE_TEXT <= a <= TECHNICAL && SAFE_TEXT <= b <= TECHNICAL ==> (KindPriority(a) > KindPriority(b) <==> a > b)
  {
  }

  /** Comparing priorities of raw kinds finds the larger clamped kind. */
  lemma ClampedIsMax(r: Report, best: int)
    requires SAFE_TEXT <= best <= TECHNICAL
    ensures (if ClampedKind(r) > best then ClampedKind(r) else best) ==
            if r.payloadKind != SAFE_TEXT && KindPriority(r.payloadKind) > KindPriority(best) then r.payloadKind else best
  {
  }

  // ----- composition

  /** The reports that are present, normalized. */
  function Present(reports: seq<Option<Report>>): seq<Report> {
    if reports == [] then []
    else
      var r := reports[|reports| - 1];
      Present(reports[..|reports| - 1]) + (if r.Some? then [r.value.Normalized()] else [])
  }

  function Compose(reports: seq<Option<Report>>): Report {
    var values := Present(reports);
    Decide(values).(payloadKind := WorstKind(values))
  }

  method ComposeReports(reports: seq<Option<Report>>) returns (composed: Report)
    ensures composed == Compose(reports)
  {
    var values: seq<Report> := [];
    for i := 0 to |reports|
      invariant values == Present(reports[..i])
    {
      assert reports[..i + 1][..i] == reports[..i];
      if reports[i].Some? {
        values := values + [reports[i].value.Normalized()];
      }
    }
    assert reports[..|reports|] == reports;
    var kind := AggregatePayloadKind(values);
    composed := RunDecision(values);
    composed := composed.(payloadKind := kind);
  }

  // ----- composition is a join

  /** How strong a report is: its rank (an observation enforces nothing) and how restrictive its kind is. */
  datatype Strength = Strength(rank: int, kind: int)

  const WEAKEST := Strength(PRIORITY_PASS, SAFE_TEXT)

  function Join(a: Strength, b: Strength): Strength {
    Strength(if a.rank >= b.rank then a.rank else b.rank, if a.kind >= b.kind then a.kind else b.kind)
  }

  function StrengthOf(r: Report): Strength {
    Strength(if r.IsObservation() then PRIORITY_PASS else r.Rank(), ClampedKind(r))
  }

  function OptionStrength(r: Option<Report>): Strength {
    if r.Some? then StrengthOf(r.value) else WEAKEST
  }

  /** The join of all strengths, independent of how Compose finds it. */
  function JoinAll(reports: seq<Option<Report>>): Strength {
    if reports == [] then WEAKEST else Join(OptionStrength(reports[0]), JoinAll(reports[1..]))
  }

  lemma NormalizedIdempotent(r: Report)
    ensures r.Normalized().Normalized() == r.Normalized()
    ensures StrengthOf(r.Normalized()) == StrengthOf(r)
    ensures r.Normalized().IsObservation() <==> r.IsObservation()
    ensures r.Effective() == RankDisposition(r.Rank())
  {
  }

  // ----- what the classification stands for

  /** Each disposition by the fields that lead to it; what is left over is a deny. */
  lemma EffectiveIff(r: Report)
    ensures r.Effective() == FAULT <==>
            !r.WellFormed() || r.disposition == FAULT || (r.disposition == CORRECTION && r.action != RETRY)
    ensures r.Effective() == CORRECTION <==>
            r.WellFormed() && r.action == RETRY && !r.fatal && (r.disposition == CORRECTION || (r.disposition == NONE && r.retryable))
    ensures r.Effective() == NONE <==>
            r.WellFormed() && r.disposition == NONE && !r.fatal && (r.action == PASS || r.action == REDACT)
  {
  }

  /** Storing the derived disposition in a report, or leaving it out, makes no difference to its class. */
  lemma DerivedIsEffective(r: Report)
    requires r.WellFormed() && (r.disposition == NONE || r.disposition == r.Derived())
    ensures r.Effective() == r.Derived()
    ensures r.Derived() == CORRECTION <==> r.action == RETRY && r.retryable && !r.fatal
    ensures r.Derived() == NONE <==> (r.action == PASS || r.action == REDACT) && !r.fatal
    ensures r.Derived() != FAULT
  {
  }

  /** Only a well-formed shadow block that is not fatal and claims neither fault nor correction observes. */
  lemma ObservationIff(r: Report)
    ensures r.IsObservation() <==>
            r.shadow && r.WellFormed() && r.action == BLOCK && !r.fatal && (r.disposition == NONE || r.disposition == DENY)
  {
  }

  /** Faults outrank denials, denials corrections, corrections redactions, and those a pass; among denials, blocks lead. */
  lemma RankOrder(a: Report, b: Report)
    ensures a.Effective() == FAULT && b.Effective() != FAULT ==> a.Rank() > b.Rank()
    ensures a.Effective() == DENY && (b.Effective() == CORRECTION || b.Effective() == NONE) ==> a.Rank() > b.Rank()
    ensures a.Effective() == CORRECTION && b.Effective() == NONE ==> a.Rank() > b.Rank()
    ensures a.Effective() == b.Effective() == NONE && a.action == REDACT && b.action == PASS ==> a.Rank() > b.Rank()
    ensures a.Effective() == b.Effective() == DENY && a.action == BLOCK && b.action != BLOCK ==> a.Rank() > b.Rank()
    ensures a.Effective() == b.Effective() == DENY && a.action == RETRY && b.action != RETRY && b.action != BLOCK ==> a.Rank() > b.Rank()
    ensures a.Effective() == b.Effective() && a.action == b.action ==> a.Rank() == b.Rank()
  {
  }

  /** Reports whose decision selects this one: it enforces, nothing enforcing is stronger, and nothing later is as strong. */
  predicate LastStrongest(reports: seq<Report>, i: int) {
    && 0 <= i < |reports| && !reports[i].IsObservation()
    && (forall j :: 0 <= j < |reports| && !reports[j].IsObservation() ==> reports[j].Rank() <= reports[i].Rank())
    && (forall j :: i < j < |reports| && !reports[j].IsObservation() ==> reports[j].Rank() < reports[i].Rank())
  }

  lemma {:induction false} SelectedIsLast(reports: seq<Report>)
    ensures Selected(reports).Some? ==> exists i :: 0 <= i < |reports| && LastStrongest(reports, i) && reports[i] == Selected(reports).value
    ensures Selected(reports).None? ==> forall r :: r in reports ==> r.IsObservation()
  {
    hide LastStrongest, Report.IsObservation, Report.Rank;
    if reports != [] {
      var front, last := reports[..|reports| - 1], reports[|reports| - 1];
      SelectedIsLast(front);
      assert reports == front + [last];
      if Selected(front).Some? {
        var i :| 0 <= i < |front| && LastStrongest(front, i) && front[i] == Selected(front).value;
        StrongestStep(front, i, last);
      } else if !last.IsObservation() {
        StrongestFirst(front, last);
      }
    }
  }

  lemma StrongestStep(front: seq<Report>, i: int, last: Report)
    requires LastStrongest(front, i)
    ensures last.IsObservation() || last.Rank() < front[i].Rank() ==>
              LastStrongest(front + [last], i) && (front + [last])[i] == front[i]
    ensures !last.IsObservation() && last.Rank() >= front[i].Rank() ==>
              LastStrongest(front + [last], |front|) && (front + [last])[|front|] == last
  {
    hide Report.IsObservation, Report.Rank;
  }

  lemma StrongestFirst(front: seq<Report>, last: Report)
    requires (forall r :: r in front ==> r.IsObservation()) && !last.IsObservation()
    ensures LastStrongest(front + [last], |front|) && (front + [last])[|front|] == last
  {
    hide Report.IsObservation, Report.Rank;
  }

  /** The scan selects a report of the highest rank that is no observation. */
  lemma {:induction false} SelectedIsStrongest(reports: seq<Report>)
    ensures var s := Selected(reports);
            if s.None? then forall r :: r in reports ==> r.IsObservation()
            else s.value in reports && !s.value.IsObservation()
                 && forall r :: r in reports && !r.IsObservation() ==> r.Rank() <= s.value.Rank()
  {
    if reports != [] {
      var front, last := reports[..|reports| - 1], reports[|reports| - 1];
      SelectedIsStrongest(front);
      assert reports == front + [last];
    }
  }

  /** A decision is as strong as the strongest enforcing report and refuses exactly when one of them refuses. */
  lemma DecideIsStrongest(reports: seq<Report>)
    ensures var d := Decide(reports); !d.IsObservation() && d.Normalized() == d
    ensures forall r :: r in reports && !r.IsObservation() ==> r.Rank() <= Decide(reports).Rank()
    ensures Decide(reports).Effective() == NONE <==> forall r :: r in reports && !r.IsObservation() ==> r.Effective() == NONE
  {
    SelectedIsStrongest(reports);
    var s := Selected(reports);
    if s.Some? {
      NormalizedIdempotent(s.value);
    }
    forall r | r in reports
      ensures r.Effective() == RankDisposition(r.Rank())
    {
      NormalizedIdempotent(r);
    }
    NormalizedIdempotent(Decide(reports));
  }

  function JoinReports(reports: seq<Report>): Strength {
    if reports == [] then WEAKEST
    else Join(JoinReports(reports[..|reports| - 1]), StrengthOf(reports[|reports| - 1]))
  }

  lemma {:induction false} DecideStrength(reports: seq<Report>)
    ensures JoinReports(reports) == Strength(Decide(reports).Rank(), WorstKind(reports))
  {
    if reports != [] {
      var front, last := reports[..|reports| - 1], reports[|reports| - 1];
      DecideStrength(front);
      NormalizedIdempotent(last);
      if Selected(front).Some? {
        NormalizedIdempotent(Selected(front).value);
      }
    }
  }

  /** What a further batch of reports changes: the stronger of the two decisions prevails. */
  lemma {:induction false} DecideAppend(a: seq<Report>, b: seq<Report>)
    ensures Decide(a + b).Rank() == if Decide(a).Rank() >= Decide(b).Rank() then Decide(a).Rank() else Decide(b).Rank()
    ensures Decide(a + b).Effective() == if Decide(a).Rank() >= Decide(b).Rank() then Decide(a).Effective() else Decide(b).Effective()
  {
    hide Decide, Report.Rank, Report.Effective, WorstKind, JoinReports;
    DecideStrength(a);
    DecideStrength(b);
    DecideStrength(a + b);
    JoinReportsAppend(a, b);
    NormalizedIdempotent(Decide(a));
    NormalizedIdempotent(Decide(b));
    NormalizedIdempotent(Decide(a + b));
  }

  lemma {:induction false} JoinReportsAppend(a: seq<Report>, b: seq<Report>)
    ensures JoinReports(a + b) == Join(JoinReports(a), JoinReports(b))
    decreases |b|
  {
    JoinReportsBounds(a);
    if b == [] {
      assert a + b == a;
    } else {
      var front := b[..|b| - 1];
      assert (a + b)[..|a + b| - 1] == a + front;
      JoinReportsAppend(a, front);
    }
  }

  lemma {:induction false} JoinReportsBounds(a: seq<Report>)
    ensures JoinReports(a).rank >= PRIORITY_PASS && JoinReports(a).kind >= SAFE_TEXT
    decreases |a|
  {
    if a != [] {
      JoinReportsBounds(a[..|a| - 1]);
    }
  }

  lemma {:induction false} JoinAllAppend(a: seq<Option<Report>>, b: seq<Option<Report>>)
    ensures JoinAll(a + b) == Join(JoinAll(a), JoinAll(b))
    decreases |a|
  {
    if a == [] {
      assert a + b == b;
      JoinAllBounds(b);
    } else {
      assert (a + b)[1..] == a[1..] + b;
      JoinAllAppend(a[1..], b);
    }
  }

  lemma {:induction false} JoinAllBounds(a: seq<Option<Report>>)
    ensures JoinAll(a).rank >= PRIORITY_PASS && JoinAll(a).kind >= SAFE_TEXT
  {
    if a != [] {
      JoinAllBounds(a[1..]);
    }
  }

  lemma JoinAllSnoc(front: seq<Option<Report>>, last: Option<Report>)
    ensures JoinAll(front + [last]) == Join(JoinAll(front), OptionStrength(last))
  {
    JoinAllAppend(front, [last]);
    assert [last][1..] == [];
    JoinAllBounds(front);
  }

  lemma {:induction false} PresentStrength(reports: seq<Option<Report>>)
    ensures JoinReports(Present(reports)) == JoinAll(reports)
    decreases |reports|
  {
    if reports != [] {
      var front, last := reports[..|reports| - 1], reports[|reports| - 1];
      PresentStrength(front);
      assert reports == front + [last];
      JoinAllSnoc(front, last);
      if last.Some? {
        NormalizedIdempotent(last.value);
        var all := Present(front) + [last.value.Normalized()];
        assert all[..|all| - 1] == Present(front);
      } else {
        assert Present(reports) == Present(front);
        JoinAllBounds(front);
      }
    }
  }

  /** The composed report has exactly the joined rank and kind of everything it was composed from. */
  lemma ComposeIsJoin(reports: seq<Option<Report>>)
    ensures StrengthOf(Compose(reports)) == JoinAll(reports)
    ensures Compose(reports).Effective() == RankDisposition(JoinAll(reports).rank)
    ensures Compose(reports).payloadKind == JoinAll(reports).kind
    ensures Compose(reports).Normalized() == Compose(reports) && !Compose(reports).IsObservation()
  {
    var values := Present(reports);
    PresentStrength(reports);
    DecideStrength(values);
    DecideIsStrongest(values);
    RekindKeepsRank(Decide(values), WorstKind(values));
    NormalizedIdempotent(Compose(reports));
  }

  lemma RekindKeepsRank(d: Report, kind: int)
    requires d.Normalized() == d && !d.IsObservation() && SAFE_TEXT <= kind <= TECHNICAL
    ensures var e := d.(payloadKind := kind); e.Rank() == d.Rank() && !e.IsObservation() && e.Normalized() == e
  {
  }

  lemma {:induction false} PresentAre(reports: seq<Option<Report>>, x: Report)
    ensures x in Present(reports) <==> exists r :: Some(r) in reports && x == r.Normalized()
  {
    hide Report.Normalized;
    if reports != [] {
      var front, last := reports[..|reports| - 1], reports[|reports| - 1];
      PresentAre(front, x);
      assert reports == front + [last];
      assert forall o :: o in reports <==> o in front || o == last;
    }
  }

  /** The fields of a composition are those of one enforcing report, normalized, with the joined kind; or of a plain pass. */
  lemma ComposeOf(reports: seq<Option<Report>>)
    ensures var c, kind := Compose(reports), JoinAll(reports).kind;
            || (c == PASS_REPORT.(payloadKind := kind) && forall r :: Some(r) in reports ==> r.IsObservation())
            || exists r :: Some(r) in reports && !r.IsObservation() && c == r.Normalized().(payloadKind := kind)
  {
    hide Report.Normalized, Report.IsObservation, Selected, JoinAll, Present, Report.Rank, Report.Effective;
    ComposeIsJoin(reports);
    var values := Present(reports);
    SelectedIsStrongest(values);
    var s := Selected(values);
    if s.Some? {
      PresentAre(reports, s.value);
      var r :| Some(r) in reports && s.value == r.Normalized();
      NormalizedIdempotent(r);
    } else {
      forall r | Some(r) in reports
        ensures r.IsObservation()
      {
        PresentAre(reports, r.Normalized());
        NormalizedIdempotent(r);
      }
    }
  }

  /** Composing parts first changes neither rank, disposition nor kind. */
  lemma ComposeAssociative(a: seq<Option<Report>>, b: seq<Option<Report>>, c: seq<Option<Report>>)
    ensures var left := Compose([Some(Compose([Some(Compose(a)), Some(Compose(b))])), Some(Compose(c))]);
            var flat := Compose(a + b + c);
            StrengthOf(left) == StrengthOf(flat) && left.Effective() == flat.Effective()
  {
    var ab := [Some(Compose(a)), Some(Compose(b))];
    var abc := [Some(Compose(ab)), Some(Compose(c))];
    ComposeIsJoin(a);
    ComposeIsJoin(b);
    ComposeIsJoin(c);
    ComposeIsJoin(ab);
    ComposeIsJoin(abc);
    ComposeIsJoin(a + b + c);
    JoinTwo(ab);
    JoinTwo(abc);
    JoinAllAppend(a, b);
    JoinAllAppend(a + b, c);
  }

  lemma JoinTwo(pair: seq<Option<Report>>)
    requires |pair| == 2
    ensures JoinAll(pair) == Join(OptionStrength(pair[0]), OptionStrength(pair[1]))
  {
    JoinAllAppend([], pair);
    assert pair[1..] == [pair[1]];
    assert pair[1..][1..] == [];
    JoinAllBounds(pair[1..]);
  }

  /** Composing a composition again gives the very same report. */
  lemma ComposeIdempotent(a: seq<Option<Report>>)
    ensures Compose([Some(Compose(a))]) == Compose(a)
    ensures StrengthOf(Compose(a + a)) == StrengthOf(Compose(a))
  {
    var c := Compose(a);
    ComposeIsJoin(a);
    var one := [Some(c)];
    assert one[..0] == [];
    assert Present(one) == [c];
    assert [c][..0] == [];
    assert Selected([c]) == Some(c);
    assert WorstKind([c]) == ClampedKind(c) == c.payloadKind;
    ComposeIsJoin(a + a);
    JoinAllAppend(a, a);
  }

  /** Parallel checks report in any order: rank, disposition and kind do not depend on it. */
  lemma {:induction false} JoinAllPermutation(a: seq<Option<Report>>, b: seq<Option<Report>>)
    requires multiset(a) == multiset(b)
    ensures JoinAll(a) == JoinAll(b)
    decreases |a|
  {
    hide OptionStrength, Join;
    if a == [] {
      assert |b| == |multiset(b)| == 0;
    } else {
      assert a == [a[0]] + a[1..];
      assert a[0] in multiset(b);
      var i :| 0 <= i < |b| && b[i] == a[0];
      TakeOut(b, i);
      TakeOut(a, 0);
      assert a[..0] + a[1..] == a[1..];
      JoinAllPermutation(a[1..], b[..i] + b[i + 1..]);
    }
  }

  lemma TakeOut(b: seq<Option<Report>>, i: nat)
    requires i < |b|
    ensures var rest := b[..i] + b[i + 1..];
            multiset(rest) == multiset(b) - multiset{b[i]} && JoinAll(b) == Join(OptionStrength(b[i]), JoinAll(rest))
  {
    hide OptionStrength;
    assert b == b[..i] + [b[i]] + b[i + 1..];
    JoinAllAppend(b[..i], b[i + 1..]);
    JoinAllAppend(b[..i] + [b[i]], b[i + 1..]);
    JoinAllSnoc(b[..i], b[i]);
  }

  lemma ComposePermutation(a: seq<Option<Report>>, b: seq<Option<Report>>)
    requires multiset(a) == multiset(b)
    ensures Compose(a).Effective() == Compose(b).Effective()
    ensures Compose(a).payloadKind == Compose(b).payloadKind
    ensures Compose(a).Rank() == Compose(b).Rank()
  {
    JoinAllPermutation(a, b);
    ComposeIsJoin(a);
    ComposeIsJoin(b);
  }

  /** An adapter that folds reports in one at a time, as the slice and JSON adapters do. */
  function FoldCompose(reports: seq<Option<Report>>): Option<Report> {
    if reports == [] then None
    else Some(Compose([FoldCompose(reports[..|reports| - 1]), reports[|reports| - 1]]))
  }

  lemma FoldStep(sofar: Option<Report>, next: Option<Report>)
    ensures var c := Compose([sofar, next]);
            StrengthOf(c) == Join(OptionStrength(sofar), OptionStrength(next)) && c.Effective() == RankDisposition(StrengthOf(c).rank)
  {
    ComposeIsJoin([sofar, next]);
    JoinTwo([sofar, next]);
  }

  lemma {:induction false} FoldComposeStrength(reports: seq<Option<Report>>)
    ensures OptionStrength(FoldCompose(reports)) == JoinAll(reports)
    decreases |reports|
  {
    if reports != [] {
      var front, last := reports[..|reports| - 1], reports[|reports| - 1];
      FoldComposeStrength(front);
      assert reports == front + [last];
      JoinAllSnoc(front, last);
      FoldStep(FoldCompose(front), last);
    }
  }

  /** Folding incrementally is as strong as composing the whole batch, and reaches the same disposition. */
  lemma FoldComposeIsBatch(reports: seq<Option<Report>>)
    requires reports != []
    ensures var folded := FoldCompose(reports).value;
            StrengthOf(folded) == StrengthOf(Compose(reports)) && folded.Effective() == Compose(reports).Effective()
  {
    FoldComposeStrength(reports);
    ComposeIsJoin(reports);
    FoldStep(FoldCompose(reports[..|reports| - 1]), reports[|reports| - 1]);
  }

  // ----- decisions

  /** The host-facing decision, without its message texts. */
  datatype Decision = Decision(action: int, disposition: int, payloadKind: int)
  {
    function Effective(): int {
      Report(action, disposition, payloadKind, false, false, false, true).Effective()
    }

    predicate IsSystemFault() { Effective() == FAULT }
  }

  const PASS_DECISION := Decision(PASS, NONE, SAFE_TEXT)

  function DecisionFromReport(r: Option<Report>): Decision {
    if r.None? then PASS_DECISION
    else
      var cp := r.value.Normalized();
      if cp.IsObservation() then Decision(PASS, NONE, cp.payloadKind)
      else Decision(cp.action, cp.disposition, cp.payloadKind)
  }

  /** RunResult.PolicyDecision. */
  function PolicyDecision(reports: seq<Report>, outputKind: int): Decision {
    var d := DecisionFromReport(Some(Decide(reports)));
    if outputKind != SAFE_TEXT || d.payloadKind == SAFE_TEXT then d.(payloadKind := outputKind) else d
  }

  /** policyFailureFromReport with a cause: a failure is never a pass. */
  function FailureDecision(r: Option<Report>): Decision {
    var d := DecisionFromReport(r);
    if d.disposition == NONE then d.(disposition := FAULT) else d
  }

  /** A boundary error: its category and the canonical decision it carries. */
  datatype GuardError = NoError | BlockError(failure: Decision) | RetryError(failure: Decision)
                      | FaultError(failure: Decision) | UnsupportedAction

  /** errorFromDecision on a report that is present. */
  function ErrorFromDecision(r: Report): GuardError {
    if r.Effective() == FAULT then FaultError(FailureDecision(Some(r)))
    else if r.Effective() == CORRECTION then RetryError(FailureDecision(Some(r.Normalized())))
    else if r.Effective() == DENY then BlockError(FailureDecision(Some(r.Normalized())))
    else if r.action == PASS || r.action == REDACT then NoError
    else UnsupportedAction
  }

  /**
   * The boundary error is nil exactly for a decision that neither faults, denies nor corrects. A correction is the one
   * thing its caller may retry, a deny is terminal, and the error carries the very decision.
   */
  lemma ErrorFromDecisionIs(reports: seq<Report>)
    ensures var d := Decide(reports);
            var e := ErrorFromDecision(d);
            && (e == NoError <==> d.Effective() == NONE)
            && (e.FaultError? <==> d.Effective() == FAULT)
            && (e.RetryError? <==> d.Effective() == CORRECTION)
            && (e.BlockError? <==> d.Effective() == DENY)
            && (e != NoError ==> e.failure == Decision(d.action, d.Effective(), d.payloadKind))
  {
    DecideIsStrongest(reports);
    NormalizedIdempotent(Decide(reports));
  }

  /** No failure is reported as a pass: whatever enforces nothing becomes a fault. */
  lemma FailureIsNoPass(r: Option<Report>)
    ensures FailureDecision(r).disposition ==
            if r.Some? && !r.value.IsObservation() && r.value.Effective() != NONE then r.value.Effective() else FAULT
  {
  }

  /** The host's decision is that of the run, with its action and the most restrictive kind of all its reports. */
  lemma PolicyDecisionIs(reports: seq<Report>)
    ensures var d := Decide(reports);
            var host := PolicyDecision(reports, WorstKind(reports));
            && host.disposition == host.Effective() == d.Effective() && host.action == d.action
            && (SAFE_TEXT <= d.payloadKind <= TECHNICAL ==> host.payloadKind == WorstKind(reports))
  {
    DecideIsStrongest(reports);
    SelectedIsStrongest(reports);
    hide Selected, WorstKind;
  }

  /** A fault report, as validatorFaultReport builds it. */
  const FAULT_REPORT := Report(PASS, FAULT, SAFE_TEXT, false, false, false, true)
}
