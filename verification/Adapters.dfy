/** Adapters that lift a check of one text to a slice or to a JSON document (ext/map_slice.go, ext/jsonredact/jsonredact.go). */
module Adapters {
  import opened Wrappers
  import opened Sequences
  import opened Reports
  import opened Errors

  /** What one call of the lifted check returns, with the context's state right after it. */
  datatype Answer = Answer(out: string, rep: Option<Report>, err: Option<Err>, ctx: Option<Err>)
  {
    function Failure(): Option<Err> { WithContext(err, ctx) }

    /** The report lets its text through and replaces it. */
    predicate Redacts() {
      rep.Some? && DecisionFromReport(rep).disposition == NONE && rep.value.action == REDACT
    }
  }

  /** The lifted check may answer each call differently; the context may end at any point. */
  datatype Host = Host(validate: (nat, string) -> Answer, ctx: nat -> Option<Err>)

  const ADAPTER_PASS := PASS_REPORT

  /** A retryable correction. */
  const JSON_INVALID := Report(RETRY, CORRECTION, SAFE_TEXT, false, true, false, true)

  // ----- what folding reports amounts to

  /** An adapter that ignores answers without a report. */
  function Folded(reports: seq<Option<Report>>): Option<Report> {
    if reports == [] then None
    else
      var sofar, last := Folded(reports[..|reports| - 1]), reports[|reports| - 1];
      if last.None? then sofar else Some(Compose([sofar, last]))
  }

  lemma {:induction false} FoldedStrength(reports: seq<Option<Report>>)
    ensures OptionStrength(Folded(reports)) == JoinAll(reports)
    ensures Folded(reports).Some? ==> IsComposed(Folded(reports).value)
  {
    if reports != [] {
      var front, last := reports[..|reports| - 1], reports[|reports| - 1];
      FoldedStrength(front);
      assert reports == front + [last];
      JoinAllSnoc(front, last);
      JoinAllBounds(front);
      if last.Some? {
        FoldStep(Folded(front), last);
        ComposeIsJoin([Folded(front), last]);
      }
    }
  }

  predicate IsComposed(r: Report) { r.Normalized() == r && !r.IsObservation() }

  /** No report that enforces anything asks for more than a redaction. */
  predicate AllBenign(reports: seq<Option<Report>>) {
    forall r :: r in reports ==> Benign(r)
  }

  predicate Benign(r: Option<Report>) {
    r.Some? && !r.value.IsObservation() ==> r.value.Effective() == NONE
  }

  lemma BenignIsWeak(r: Option<Report>)
    ensures Benign(r) <==> OptionStrength(r).rank < PRIORITY_RETRY
  {
  }

  lemma {:induction false} JoinIsWeak(reports: seq<Option<Report>>)
    ensures JoinAll(reports).rank < PRIORITY_RETRY <==> AllBenign(reports)
  {
    if reports != [] {
      JoinIsWeak(reports[1..]);
      BenignIsWeak(reports[0]);
      assert reports == [reports[0]] + reports[1..];
    }
  }

  /** An answer replaces its text exactly if it is a well-formed redaction that nothing escalates. */
  lemma RedactsIff(a: Answer)
    ensures a.Redacts() <==>
            a.rep.Some? && a.rep.value.WellFormed() && a.rep.value.action == REDACT && a.rep.value.disposition == NONE && !a.rep.value.fatal
  {
    if a.rep.Some? {
      EffectiveIff(a.rep.value);
    }
  }

  /** A folded report allows exactly when every report it was folded from does. */
  lemma FoldedAllowsIff(rep: Option<Report>, reports: seq<Option<Report>>)
    requires OptionStrength(rep) == JoinAll(reports) && (rep.Some? ==> IsComposed(rep.value))
    ensures DecisionFromReport(rep).disposition == NONE <==> AllBenign(reports)
  {
    JoinIsWeak(reports);
    if rep.Some? {
      NormalizedIdempotent(rep.value);
    }
  }

  /** WithCompletedObservations and CompletedReportFromError, as both adapters end on a failure. */
  method Fault(completed: Option<Report>, cause: Err) returns (report: Option<Report>, err: Option<Err>)
    ensures err == Some(WithCompleted(cause, [completed])) && report == CompletedReport(err.value)
    ensures OptionStrength(report) == Join(OptionStrength(completed), JoinAll(Collected(cause)))
  {
    var attached := WithCompleted(cause, [completed]);
    AttachConserves(cause, [completed]);
    CompletedStrength(attached);
    assert [completed][1..] == [];
    JoinAllBounds([completed]);
    return CompletedReport(attached), Some(attached);
  }

  // ----- slices

  ghost function SliceReports<T>(host: Host, extract: T -> string, input: seq<T>, n: nat): seq<Option<Report>>
    requires n <= |input|
  {
    seq(n, i requires 0 <= i < n => host.validate(i, extract(input[i])).rep)
  }

  /** The first n elements were reached with a live context and answered. */
  ghost predicate AllChecked<T>(host: Host, extract: T -> string, input: seq<T>, n: nat)
    requires n <= |input|
  {
    forall i: nat :: i < n ==> host.ctx(i).None? && host.validate(i, extract(input[i])).Failure().None?
  }

  /** After n elements the context has ended, or the next check fails. */
  predicate Interrupted<T>(host: Host, extract: T -> string, input: seq<T>, n: nat)
    requires n <= |input|
  {
    host.ctx(n).Some? || (n < |input| && host.validate(n, extract(input[n])).Failure().Some?)
  }

  /** What an element becomes, if the whole slice is let through. */
  function MappedElement<T>(host: Host, extract: T -> string, inject: (T, string) -> T, input: seq<T>, i: nat): T
    requires i < |input|
  {
    var a := host.validate(i, extract(input[i]));
    if a.Redacts() then inject(input[i], a.out) else input[i]
  }

  /** The first n elements are mapped, the others as they were. */
  ghost predicate MappedUpTo<T>(host: Host, extract: T -> string, inject: (T, string) -> T, input: seq<T>, out: seq<T>, n: nat)
    requires n <= |input|
  {
    && |out| == |input|
    && (forall i: nat :: i < n ==> out[i] == MappedElement(host, extract, inject, input, i))
    && (forall i: nat :: n <= i < |out| ==> out[i] == input[i])
  }

  /** A slice mapped to its end: what the check redacted is injected, everything else is the very element it was. */
  lemma MappedIs<T>(host: Host, extract: T -> string, inject: (T, string) -> T, input: seq<T>, out: seq<T>, i: nat)
    requires MappedUpTo(host, extract, inject, input, out, |input|) && i < |input|
    ensures var a := host.validate(i, extract(input[i]));
            && (a.Redacts() ==> out[i] == inject(input[i], a.out))
            && (!a.Redacts() ==> out[i] == input[i])
  {
  }

  /** The running report is the fold of the reports so far. */
  ghost predicate Summed(combined: Option<Report>, reports: seq<Option<Report>>) {
    && combined == FoldCompose(reports)
    && OptionStrength(combined) == JoinAll(reports)
    && (combined.Some? ==> IsComposed(combined.value))
  }

  lemma SumOne(combined: Option<Report>, reports: seq<Option<Report>>, rep: Option<Report>)
    requires Summed(combined, reports)
    ensures var c := Some(Compose([combined, rep]));
            Summed(c, reports + [rep]) && (DecisionFromReport(c).disposition == NONE <==> AllBenign(reports + [rep]))
  {
    var all := reports + [rep];
    assert all[..|all| - 1] == reports;
    FoldComposeStrength(all);
    ComposeIsJoin([combined, rep]);
    FoldedAllowsIff(Some(Compose([combined, rep])), all);
  }

  /**
   * The slice adapter is all or nothing. Either every element was checked, none of the reports refused and exactly the
   * redacted elements are replaced, or the input comes back as it was; and the n reports completed are all in the report.
   * It is an error exactly when, with no refusal so far, the context ends or a check fails.
   */
  method MapSlice<T>(host: Host, extract: T -> string, inject: (T, string) -> T, input: seq<T>)
    returns (output: seq<T>, report: Option<Report>, err: Option<Err>, ghost n: nat)
    ensures err.Some? || DecisionFromReport(report).disposition != NONE ==> output == input
    ensures err.None? && DecisionFromReport(report).disposition == NONE ==>
              && AllChecked(host, extract, input, |input|) && AllBenign(SliceReports(host, extract, input, |input|))
              && MappedUpTo(host, extract, inject, input, output, |input|)
    ensures host.ctx(|input|).None? && AllChecked(host, extract, input, |input|) ==> err.None?
    ensures n <= |input| && AllChecked(host, extract, input, n)
    ensures err.Some? <==> input != [] && AllBenign(SliceReports(host, extract, input, n)) && Interrupted(host, extract, input, n)
    ensures err.None? ==> (DecisionFromReport(report).disposition == NONE <==> AllBenign(SliceReports(host, extract, input, n)))
    ensures err.None? && input != [] ==> OptionStrength(report) == JoinAll(SliceReports(host, extract, input, n))
    ensures err.Some? ==> Covers(report, SliceReports(host, extract, input, n))
  {
    hide Compose, FoldCompose, JoinAll, DecisionFromReport, AllBenign, Summed, Covers, MappedUpTo, AllChecked, Answer.Redacts;
    hide Interrupted;
    n := 0;
    Nothing(host, extract, inject, input);
    if |input| == 0 {
      return input, Some(ADAPTER_PASS), None, 0;
    }
    var out := input;
    var combined: Option<Report> := None;
    for i := 0 to |input|
      invariant n == i && AllChecked(host, extract, input, n)
      invariant Summed(combined, SliceReports(host, extract, input, n))
      invariant AllBenign(SliceReports(host, extract, input, n)) && DecisionFromReport(combined).disposition == NONE
      invariant |out| == |input| && MappedUpTo(host, extract, inject, input, out, n)
    {
      NotInterrupted(host, extract, input, n);
      if host.ctx(i).Some? {
        report, err := CompletedFault(combined, SliceReports(host, extract, input, n), host.ctx(i).value);
        return input, report, err, n;
      }
      var answer := host.validate(i, extract(input[i]));
      if answer.Failure().Some? {
        report, err := CompletedFault(combined, SliceReports(host, extract, input, n), answer.Failure().value);
        return input, report, err, n;
      }
      SumOne(combined, SliceReports(host, extract, input, n), answer.rep);
      NextElement(host, extract, inject, input, out, n);
      combined := Some(Compose([combined, answer.rep]));
      n := n + 1;
      if DecisionFromReport(combined).disposition != NONE {
        SummedStrength(combined, SliceReports(host, extract, input, n));
        return input, combined, None, n;
      }
      LastIsBenign(SliceReports(host, extract, input, n), answer);
      if answer.rep.Some? && answer.rep.value.action == REDACT {
        out := out[i := inject(input[i], answer.out)];
      }
    }
    NotInterrupted(host, extract, input, n);
    if host.ctx(|input|).Some? {
      report, err := CompletedFault(combined, SliceReports(host, extract, input, n), host.ctx(|input|).value);
      return input, report, err, n;
    }
    SummedStrength(combined, SliceReports(host, extract, input, n));
    return out, combined, None, n;
  }

  lemma Nothing<T>(host: Host, extract: T -> string, inject: (T, string) -> T, input: seq<T>)
    ensures AllChecked(host, extract, input, 0) && Summed(None, SliceReports(host, extract, input, 0))
    ensures AllBenign(SliceReports(host, extract, input, 0)) && MappedUpTo(host, extract, inject, input, input, 0)
    ensures DecisionFromReport(None).disposition == DecisionFromReport(Some(ADAPTER_PASS)).disposition == NONE
  {
  }

  lemma NotInterrupted<T>(host: Host, extract: T -> string, input: seq<T>, n: nat)
    requires n <= |input|
    ensures Interrupted(host, extract, input, n) <==>
            host.ctx(n).Some? || (n < |input| && host.validate(n, extract(input[n])).Failure().Some?)
    ensures n < |input| && Interrupted(host, extract, input, n) ==> !AllChecked(host, extract, input, |input|)
  {
  }

  lemma NextElement<T>(host: Host, extract: T -> string, inject: (T, string) -> T, input: seq<T>, out: seq<T>, n: nat)
    requires n < |input| && MappedUpTo(host, extract, inject, input, out, n) && AllChecked(host, extract, input, n)
    ensures var a := host.validate(n, extract(input[n]));
            && SliceReports(host, extract, input, n + 1) == SliceReports(host, extract, input, n) + [a.rep]
            && (host.ctx(n).None? && a.Failure().None? ==> AllChecked(host, extract, input, n + 1))
            && MappedUpTo(host, extract, inject, input, if a.Redacts() then out[n := inject(input[n], a.out)] else out, n + 1)
  {
    hide Answer.Redacts, Answer.Failure;
    assert SliceReports(host, extract, input, n + 1) ==
           SliceReports(host, extract, input, n) + [host.validate(n, extract(input[n])).rep];
  }

  /** Once the fold lets everything through, an answer redacts exactly when its action says so. */
  lemma LastIsBenign(reports: seq<Option<Report>>, answer: Answer)
    requires reports != [] && reports[|reports| - 1] == answer.rep && AllBenign(reports)
    ensures answer.Redacts() <==> answer.rep.Some? && answer.rep.value.action == REDACT
  {
    assert Benign(reports[|reports| - 1]);
  }

  lemma SummedStrength(combined: Option<Report>, reports: seq<Option<Report>>)
    requires Summed(combined, reports)
    ensures OptionStrength(combined) == JoinAll(reports)
  {
  }

  /** The report is at least as strong as every one of the completed reports. */
  ghost predicate Covers(report: Option<Report>, completed: seq<Option<Report>>) {
    Join(OptionStrength(report), JoinAll(completed)) == OptionStrength(report)
  }

  /** A failure after some completed reports: they are its evidence, the failing call's own report is not. */
  method CompletedFault(combined: Option<Report>, ghost reports: seq<Option<Report>>, cause: Err)
    returns (report: Option<Report>, err: Option<Err>)
    requires Summed(combined, reports)
    ensures err == Some(WithCompleted(cause, [combined])) && report == CompletedReport(err.value)
    ensures OptionStrength(report) == Join(JoinAll(reports), JoinAll(Collected(cause))) && Covers(report, reports)
  {
    report, err := Fault(combined, cause);
  }

  // ----- JSON trees

  /** A decoded document; the keys of an object stand sorted, in the order in which its values are visited. */
  datatype Json = Object(keys: seq<string>, values: seq<Json>) | Array(items: seq<Json>) | Text(text: string) | Atom(literal: string)

  /** The string leaves in the order of the walk. */
  function Leaves(node: Json): seq<string>
    decreases node, 0
  {
    match node
    case Object(_, values) => LeavesOf(values)
    case Array(items) => LeavesOf(items)
    case Text(text) => [text]
    case Atom(_) => []
  }

  /** How many nodes a walk can look at. */
  function Nodes(node: Json): nat
    decreases node, 0
  {
    match node
    case Object(_, values) => 1 + NodesOf(values)
    case Array(items) => 1 + NodesOf(items)
    case _ => 1
  }

  function NodesOf(nodes: seq<Json>): nat
    decreases nodes, 0
  {
    if nodes == [] then 0 else NodesOf(nodes[..|nodes| - 1]) + Nodes(nodes[|nodes| - 1])
  }

  function LeavesOf(nodes: seq<Json>): seq<string>
    decreases nodes, 0
  {
    if nodes == [] then [] else LeavesOf(nodes[..|nodes| - 1]) + Leaves(nodes[|nodes| - 1])
  }

  /** The trees agree in everything but the text of their string leaves. */
  predicate SameShape(a: Json, b: Json)
    decreases a, 0
  {
    match a
    case Object(keys, values) => b.Object? && keys == b.keys && SameShapes(values, b.values)
    case Array(items) => b.Array? && SameShapes(items, b.items)
    case Text(_) => b.Text?
    case Atom(_) => a == b
  }

  predicate SameShapes(a: seq<Json>, b: seq<Json>)
    decreases a, 0
  {
    |a| == |b| && forall i :: 0 <= i < |a| ==> SameShape(a[i], b[i])
  }

  lemma {:induction false} ShapeReflexive(node: Json)
    ensures SameShape(node, node)
  {
    match node
    case Object(_, values) => forall i | 0 <= i < |values| ensures SameShape(values[i], values[i]) { ShapeReflexive(values[i]); }
    case Array(items) => forall i | 0 <= i < |items| ensures SameShape(items[i], items[i]) { ShapeReflexive(items[i]); }
    case _ =>
  }

  lemma {:induction false} ShapeCountsLeaves(a: Json, b: Json)
    requires SameShape(a, b)
    ensures |Leaves(a)| == |Leaves(b)|
    decreases a, 0
  {
    match a
    case Object(_, values) => ShapesCountLeaves(values, b.values);
    case Array(items) => ShapesCountLeaves(items, b.items);
    case _ =>
  }

  lemma {:induction false} ShapesCountLeaves(a: seq<Json>, b: seq<Json>)
    requires SameShapes(a, b)
    ensures |LeavesOf(a)| == |LeavesOf(b)|
    decreases a, 0
  {
    if a != [] {
      ShapesCountLeaves(a[..|a| - 1], b[..|b| - 1]);
      ShapeCountsLeaves(a[|a| - 1], b[|b| - 1]);
    }
  }

  /** Shape and leaves determine a tree: two of the same shape with the same leaves are equal. */
  lemma {:induction false} ShapeAndLeavesDetermine(a: Json, b: Json)
    requires SameShape(a, b) && Leaves(a) == Leaves(b)
    ensures a == b
    decreases a, 0
  {
    match a
    case Object(_, values) => ShapesAndLeavesDetermine(values, b.values);
    case Array(items) => ShapesAndLeavesDetermine(items, b.items);
    case _ =>
  }

  lemma {:induction false} ShapesAndLeavesDetermine(a: seq<Json>, b: seq<Json>)
    requires SameShapes(a, b) && LeavesOf(a) == LeavesOf(b)
    ensures a == b
    decreases a, 0
  {
    if a != [] {
      var i := |a| - 1;
      ShapesCountLeaves(a[..i], b[..i]);
      var n := |LeavesOf(a[..i])|;
      assert LeavesOf(a)[..n] == LeavesOf(a[..i]) && LeavesOf(b)[..n] == LeavesOf(b[..i]);
      assert LeavesOf(a)[n..] == Leaves(a[i]) && LeavesOf(b)[n..] == Leaves(b[i]);
      ShapesAndLeavesDetermine(a[..i], b[..i]);
      ShapeAndLeavesDetermine(a[i], b[i]);
      assert a == a[..i] + [a[i]] && b == b[..i] + [b[i]];
    }
  }

  // ----- the walk

  ghost function LeafReports(host: Host, texts: seq<string>, calls: nat): seq<Option<Report>>
    requires calls <= |texts|
  {
    seq(calls, i requires 0 <= i < calls => host.validate(i, texts[i]).rep)
  }

  /** What leaf i becomes after so many calls. */
  function NewLeaf(host: Host, texts: seq<string>, calls: nat, i: nat): string
    requires i < |texts|
  {
    if i < calls && host.validate(i, texts[i]).Redacts() then host.validate(i, texts[i]).out else texts[i]
  }

  /** The outcome so far after passing the leaves in texts, the first `calls` of which were checked. */
  ghost predicate Consistent(host: Host, texts: seq<string>, outs: seq<string>, calls: nat, changed: bool, lastRep: Option<Report>) {
    && calls <= |texts| == |outs|
    && (calls < |texts| ==> DecisionFromReport(lastRep).IsSystemFault())
    && lastRep == Folded(LeafReports(host, texts, calls))
    && AllAnswered(host, texts, calls)
    && Rewritten(host, texts, outs, calls)
    && (!changed ==> outs == texts)
    && (changed ==> lastRep.Some?)
  }

  ghost predicate AllAnswered(host: Host, texts: seq<string>, calls: nat)
    requires calls <= |texts|
  {
    forall i: nat :: i < calls ==> host.validate(i, texts[i]).Failure().None?
  }

  ghost predicate Rewritten(host: Host, texts: seq<string>, outs: seq<string>, calls: nat) {
    |outs| == |texts| && forall i: nat :: i < |texts| ==> outs[i] == NewLeaf(host, texts, calls, i)
  }

  /** One answered leaf. */
  lemma AnswerKeeps(host: Host, texts: seq<string>, outs: seq<string>, changed: bool, lastRep: Option<Report>, text: string)
    requires Consistent(host, texts, outs, |texts|, changed, lastRep)
    requires host.validate(|texts|, text).Failure().None?
    ensures var a := host.validate(|texts|, text);
            Consistent(host, texts + [text], outs + [if a.Redacts() then a.out else text], |texts| + 1, changed || a.Redacts(),
                       if a.rep.Some? then Some(Compose([lastRep, a.rep])) else lastRep)
  {
    hide Compose, DecisionFromReport, Answer.Failure;
    var before, after := LeafReports(host, texts, |texts|), LeafReports(host, texts + [text], |texts| + 1);
    assert after == before + [host.validate(|texts|, text).rep];
    assert after[..|after| - 1] == before;
  }

  /** Leaves passed over without a check. */
  lemma PassingKeeps(host: Host, texts: seq<string>, outs: seq<string>, calls: nat, changed: bool, lastRep: Option<Report>, more: seq<string>)
    requires Consistent(host, texts, outs, calls, changed, lastRep)
    requires DecisionFromReport(lastRep).IsSystemFault()
    ensures Consistent(host, texts + more, outs + more, calls, changed, lastRep)
  {
    hide Compose, DecisionFromReport, Folded, Answer.Failure, Answer.Redacts;
    assert LeafReports(host, texts + more, calls) == LeafReports(host, texts, calls);
  }

  /** What one walk over a document shares between its steps. */
  class Walk {
    const host: Host
    var changed: bool
    var lastRep: Option<Report>
    var calls: nat             // leaf checks completed
    var ticks: nat             // looks at the context
    ghost var texts: seq<string>  // the leaves passed so far
    ghost var outs: seq<string>   // what they became

    ghost predicate Valid()
      reads this
    {
      Consistent(host, texts, outs, calls, changed, lastRep)
    }

    constructor (host: Host)
      ensures Valid() && this.host == host && texts == [] && outs == [] && ticks == 0
    {
      this.host := host;
      changed, lastRep, calls, ticks, texts, outs := false, None, 0, 0, [], [];
    }

    /** A fault has been recorded: the walk passes over everything that is left. */
    predicate Faulted()
      reads this
    {
      DecisionFromReport(lastRep).IsSystemFault()
    }

    /** The walk over the leaves in all was interrupted: by the context, or by the failing check of the next leaf. */
    ghost predicate StoppedAt(all: seq<string>, err: Option<Err>)
      reads this
    {
      && texts <= all && err.Some?
      && ((ticks > 0 && host.ctx(ticks - 1) == err)
          || (calls == |texts| < |all| && host.validate(calls, all[calls]).Failure() == err))
    }

    /** The context was live at every look between, but perhaps the last one of an interrupted walk. */
    ghost predicate LooksLive(from: nat, to: nat, err: Option<Err>)
      reads this
    {
      from <= to && forall t: nat :: from <= t < to && (err.None? || t < to - 1) ==> host.ctx(t).None?
    }

    /** walkString: one leaf. */
    method WalkString(text: string) returns (result: string, err: Option<Err>)
      requires Valid() && !Faulted()
      modifies this
      ensures Valid()
      ensures err.None? ==> texts == old(texts) + [text] && outs == old(outs) + [result]
      ensures err.Some? ==> StoppedAt(old(texts) + [text], err)
      ensures ticks == old(ticks)
    {
      hide Compose, Folded, Rewritten, AllAnswered;
      var answer := host.validate(calls, text);
      if answer.Failure().Some? {
        return text, answer.Failure();
      }
      AnswerKeeps(host, texts, outs, changed, lastRep, text);
      result, err := text, None;
      if answer.rep.Some? {
        lastRep := Some(Compose([lastRep, answer.rep]));
        if DecisionFromReport(answer.rep).disposition == NONE && answer.rep.value.action == REDACT {
          changed := true;
          result := answer.out;
        }
      }
      calls := calls + 1;
      texts, outs := texts + [text], outs + [result];
    }

    /** walk: the shape of the tree stays, its leaves are replaced one by one. */
    method WalkNode(node: Json) returns (result: Json, err: Option<Err>)
      requires Valid()
      modifies this
      ensures Valid()
      ensures err.None? ==> SameShape(node, result)
      ensures err.None? ==> texts == old(texts) + Leaves(node) && outs == old(outs) + Leaves(result)
      ensures err.Some? ==> StoppedAt(old(texts) + Leaves(node), err)
      ensures LooksLive(old(ticks), ticks, err) && ticks <= old(ticks) + Nodes(node)
      ensures old(Faulted()) ==> Faulted()
      ensures err.None? && !Faulted() ==> ticks == old(ticks) + Nodes(node)
      ensures ticks > old(ticks)
      decreases node, 0
    {
      hide Consistent, DecisionFromReport, LeavesOf, SameShapes;
      result := node;
      ticks := ticks + 1;
      err := host.ctx(ticks - 1);
      if err.Some? {
        return;
      }
      ShapeReflexive(node);
      if Faulted() {
        PassingKeeps(host, texts, outs, calls, changed, lastRep, Leaves(node));
        texts, outs := texts + Leaves(node), outs + Leaves(node);
        return;
      }
      match node
      case Object(keys, values) =>
        var done;
        done, err := WalkNodes(values);
        result := Object(keys, done);
      case Array(items) =>
        var done;
        done, err := WalkNodes(items);
        result := Array(done);
      case Text(text) =>
        var out;
        out, err := WalkString(text);
        result := Text(out);
      case Atom(_) =>
    }

    /** The children, in order; a later child does not disturb an earlier one. */
    method WalkNodes(nodes: seq<Json>) returns (result: seq<Json>, err: Option<Err>)
      requires Valid()
      modifies this
      ensures Valid()
      ensures err.None? ==> SameShapes(nodes, result)
      ensures err.None? ==> texts == old(texts) + LeavesOf(nodes) && outs == old(outs) + LeavesOf(result)
      ensures err.Some? ==> StoppedAt(old(texts) + LeavesOf(nodes), err)
      ensures LooksLive(old(ticks), ticks, err) && ticks <= old(ticks) + NodesOf(nodes)
      ensures old(Faulted()) ==> Faulted()
      ensures err.None? && !Faulted() ==> ticks == old(ticks) + NodesOf(nodes)
      decreases nodes, 0
    {
      hide Consistent, SameShape, SameShapes, Leaves, LeavesOf, Nodes, NodesOf;
      result := nodes;
      NoNodes(nodes, result);
      NodesBefore(nodes, 0);
      for i := 0 to |nodes|
        invariant Valid()
        invariant |result| == |nodes|
        invariant SameShapes(nodes[..i], result[..i])
        invariant texts == old(texts) + LeavesOf(nodes[..i]) && outs == old(outs) + LeavesOf(result[..i])
        invariant LooksLive(old(ticks), ticks, None) && ticks <= old(ticks) + NodesOf(nodes[..i])
        invariant old(Faulted()) ==> Faulted()
        invariant !Faulted() ==> ticks == old(ticks) + NodesOf(nodes[..i])
      {
        var child;
        LeavesBefore(nodes, i);
        Regroup(old(texts), LeavesOf(nodes[..i]), Leaves(nodes[i]));
        NodesBefore(nodes, i);
        child, err := WalkNode(nodes[i]);
        if err.Some? {
          PrefixBehind(old(texts), LeavesOf(nodes[..i]) + Leaves(nodes[i]), LeavesOf(nodes));
          return;
        }
        NextNode(nodes, result, i, child);
        Regroup(old(outs), LeavesOf(result[..i]), Leaves(child));
        result := result[i := child];
      }
      assert nodes[..|nodes|] == nodes && result[..|nodes|] == result;
      err := None;
    }
  }

  lemma NoNodes(a: seq<Json>, b: seq<Json>)
    ensures SameShapes(a[..0], b[..0]) && LeavesOf(a[..0]) == [] && LeavesOf(b[..0]) == []
  {
  }

  lemma {:induction false} NodesBefore(nodes: seq<Json>, i: nat)
    ensures NodesOf(nodes[..0]) == 0
    ensures i < |nodes| ==> NodesOf(nodes[..i + 1]) == NodesOf(nodes[..i]) + Nodes(nodes[i]) <= NodesOf(nodes)
    decreases |nodes|
  {
    hide Nodes;
    if i < |nodes| {
      assert nodes[..i + 1][..i] == nodes[..i];
      if i == |nodes| - 1 {
        assert nodes[..i + 1] == nodes;
      } else {
        var front := nodes[..|nodes| - 1];
        assert front[..i] == nodes[..i] && front[..i + 1] == nodes[..i + 1];
        NodesBefore(front, i);
      }
    }
  }

  lemma PrefixBehind(a: seq<string>, b: seq<string>, c: seq<string>)
    requires b <= c
    ensures a + b <= a + c
  {
  }

  /** The leaves up to a node are the first ones. */
  lemma {:induction false} LeavesBefore(nodes: seq<Json>, i: nat)
    requires i < |nodes|
    ensures LeavesOf(nodes[..i]) + Leaves(nodes[i]) <= LeavesOf(nodes)
    decreases |nodes|
  {
    hide Leaves;
    if i < |nodes| - 1 {
      var front := nodes[..|nodes| - 1];
      assert front[..i] == nodes[..i];
      LeavesBefore(front, i);
    }
  }

  lemma NextNode(nodes: seq<Json>, result: seq<Json>, i: nat, child: Json)
    requires i < |nodes| == |result| && SameShapes(nodes[..i], result[..i]) && SameShape(nodes[i], child)
    ensures var next := result[i := child];
            && SameShapes(nodes[..i + 1], next[..i + 1])
            && LeavesOf(nodes[..i + 1]) == LeavesOf(nodes[..i]) + Leaves(nodes[i])
            && LeavesOf(next[..i + 1]) == LeavesOf(result[..i]) + Leaves(child)
  {
    var next := result[i := child];
    hide SameShape, Leaves;
    assert nodes[..i + 1][..i] == nodes[..i] && next[..i + 1][..i] == result[..i];
    var a, b := nodes[..i + 1], next[..i + 1];
    forall k | 0 <= k < |a|
      ensures SameShape(a[k], b[k])
    {
      if k < i {
        assert a[k] == nodes[..i][k] && b[k] == result[..i][k];
      }
    }
  }

  /** The report is the join of the completed leaf reports, allows exactly when all do, and only a fault skips leaves. */
  ghost predicate Summary(host: Host, texts: seq<string>, calls: nat, report: Option<Report>) {
    && calls <= |texts| && AllAnswered(host, texts, calls)
    && OptionStrength(report) == JoinAll(LeafReports(host, texts, calls))
    && (DecisionFromReport(report).disposition == NONE <==> AllBenign(LeafReports(host, texts, calls)))
    && (calls < |texts| ==> DecisionFromReport(report).IsSystemFault())
  }

  lemma SummaryOf(host: Host, texts: seq<string>, outs: seq<string>, calls: nat, changed: bool, lastRep: Option<Report>)
    requires Consistent(host, texts, outs, calls, changed, lastRep)
    ensures Summary(host, texts, calls, lastRep) && (changed ==> lastRep.Some?)
    ensures lastRep.None? ==> Summary(host, texts, calls, Some(ADAPTER_PASS))
    ensures lastRep.None? ==> DecisionFromReport(lastRep).disposition == DecisionFromReport(Some(ADAPTER_PASS)).disposition
    ensures DecisionFromReport(lastRep).disposition == NONE ==>
              !DecisionFromReport(lastRep).IsSystemFault() && calls == |texts| && Rewritten(host, texts, outs, calls)
  {
    var reports := LeafReports(host, texts, calls);
    FoldedStrength(reports);
    FoldedAllowsIff(lastRep, reports);
  }

  /** After a walk to the end, a redacted leaf is what its check made of it, and every other leaf what it was. */
  lemma LeafIs(host: Host, root: Json, result: Json, calls: nat, i: nat)
    requires Walked(host, root, result, calls) && i < |Leaves(root)|
    ensures |Leaves(result)| == |Leaves(root)|
    ensures var a, text := host.validate(i, Leaves(root)[i]), Leaves(root)[i];
            && (a.Redacts() ==> Leaves(result)[i] == a.out)
            && (!a.Redacts() ==> Leaves(result)[i] == text)
  {
    hide Leaves, SameShape, Answer.Redacts;
  }

  /** A document without redacted leaves comes through unchanged. */
  lemma UnredactedIsUnchanged(host: Host, node: Json, result: Json, calls: nat)
    requires SameShape(node, result) && Rewritten(host, Leaves(node), Leaves(result), calls)
    ensures (forall i: nat :: i < calls && i < |Leaves(node)| && host.validate(i, Leaves(node)[i]).Redacts() ==>
                              host.validate(i, Leaves(node)[i]).out == Leaves(node)[i]) <==> result == node
  {
    hide Leaves, SameShape, Answer.Redacts;
    var texts, outs := Leaves(node), Leaves(result);
    if forall i: nat :: i < calls && i < |texts| && host.validate(i, texts[i]).Redacts() ==> host.validate(i, texts[i]).out == texts[i] {
      assert forall i: nat :: i < |texts| ==> outs[i] == NewLeaf(host, texts, calls, i) == texts[i];
      assert outs == texts;
      ShapeAndLeavesDetermine(node, result);
    } else {
      var i: nat :| i < calls && i < |texts| && host.validate(i, texts[i]).Redacts() && host.validate(i, texts[i]).out != texts[i];
      assert outs[i] == NewLeaf(host, texts, calls, i) != texts[i];
    }
  }

  /** The report beside an error covers the leaf reports completed before it; the failing leaf's own is not among them. */
  ghost predicate Partial(host: Host, texts: seq<string>, calls: nat, report: Option<Report>) {
    calls <= |texts| && AllAnswered(host, texts, calls) && Covers(report, LeafReports(host, texts, calls))
  }

  lemma PartialOf(host: Host, texts: seq<string>, outs: seq<string>, calls: nat, changed: bool, lastRep: Option<Report>,
                  all: seq<string>, cause: Err, report: Option<Report>)
    requires Consistent(host, texts, outs, calls, changed, lastRep) && texts <= all
    requires OptionStrength(report) == Join(OptionStrength(lastRep), JoinAll(Collected(cause)))
    ensures Partial(host, all, calls, report)
  {
    hide Answer.Failure, Folded;
    assert LeafReports(host, all, calls) == LeafReports(host, texts, calls);
    FoldedStrength(LeafReports(host, texts, calls));
  }

  /** What interrupted a walk over this document: the context at its last look, or the check of the leaf after the completed ones. */
  ghost predicate WalkInterrupted(host: Host, root: Json, calls: nat, looks: nat) {
    || (0 < looks <= Nodes(root) && host.ctx(looks - 1).Some?)
    || (calls < |Leaves(root)| && host.validate(calls, Leaves(root)[calls]).Failure().Some?)
  }

  /** The walk came to the end of the document with this result. */
  ghost predicate Walked(host: Host, root: Json, result: Json, calls: nat) {
    && calls == |Leaves(root)| && SameShape(root, result)
    && Rewritten(host, Leaves(root), Leaves(result), calls)
  }

  lemma InvalidRefuses()
    ensures DecisionFromReport(Some(JSON_INVALID)).disposition == CORRECTION
  {
  }

  /**
   * Validate of the JSON adapter. When the outcome allows, every string leaf was checked, no report refused, and the
   * output is the document with exactly the redacted leaves replaced; on a denial, a correction, a fault or an error
   * the original text comes back. An error has an interruption behind it, and its report covers what was completed.
   */
  method ValidateJson(host: Host, decode: string -> Option<Json>, marshal: Json -> Option<string>, unmarshalable: Err,
                      ended: nat -> Option<Err>, input: string)
    returns (output: string, report: Option<Report>, err: Option<Err>, ghost result: Json, ghost calls: nat, ghost looks: nat)
    ensures err.Some? || DecisionFromReport(report).disposition != NONE ==> output == input
    ensures ended(0).Some? ==> err == ended(0) && report.None?
    ensures err.None? && decode(input).None? ==> report == Some(JSON_INVALID)
    ensures err.None? && decode(input).Some? ==> Summary(host, Leaves(decode(input).value), calls, report)
    ensures err.None? && decode(input).Some? ==>
              && (forall t: nat :: t < looks ==> host.ctx(t).None?)
              && (DecisionFromReport(report).IsSystemFault() || looks == Nodes(decode(input).value))
    ensures err.None? && DecisionFromReport(report).disposition == NONE ==>
              && decode(input).Some? && marshal(result) == Some(output) && Walked(host, decode(input).value, result, calls)
              && ended(1).None?
    ensures err.Some? && ended(0).None? ==>
              && decode(input).Some? && Partial(host, Leaves(decode(input).value), calls, report)
              && (WalkInterrupted(host, decode(input).value, calls, looks)
                  || (Walked(host, decode(input).value, result, calls) && (marshal(result).None? || ended(1).Some?)))
  {
    hide Compose, Folded, JoinAll, DecisionFromReport, Summary, Consistent, Rewritten, SameShape, Leaves;
    InvalidRefuses();
    result, calls, looks := Atom(""), 0, 0;
    if ended(0).Some? {
      return input, None, ended(0), result, calls, looks;
    }
    var root := decode(input);
    if root.None? {
      return input, Some(JSON_INVALID), None, result, calls, looks;
    }
    var walk := new Walk(host);
    var tree;
    tree, err := walk.WalkNode(root.value);
    calls, looks := walk.calls, walk.ticks;
    ghost var leaves := Leaves(root.value);
    if err.Some? {
      var cause := err.value;
      assert walk.StoppedAt(leaves, err) by {
        assert [] + leaves == leaves;
      }
      report, err := Fault(walk.lastRep, cause);
      PartialOf(host, walk.texts, walk.outs, calls, walk.changed, walk.lastRep, leaves, cause, report);
      return input, report, err, result, calls, looks;
    }
    result := tree;
    assert walk.texts == leaves && walk.outs == Leaves(tree);
    SummaryOf(host, walk.texts, walk.outs, calls, walk.changed, walk.lastRep);
    if DecisionFromReport(walk.lastRep).disposition != NONE {
      return input, walk.lastRep, None, result, calls, looks;
    }
    var out := marshal(tree);
    if out.None? {
      report, err := Fault(walk.lastRep, unmarshalable);
      PartialOf(host, walk.texts, walk.outs, calls, walk.changed, walk.lastRep, leaves, unmarshalable, report);
      return input, report, err, result, calls, looks;
    }
    if ended(1).Some? {
      report, err := Fault(walk.lastRep, ended(1).value);
      PartialOf(host, walk.texts, walk.outs, calls, walk.changed, walk.lastRep, leaves, ended(1).value, report);
      return input, report, err, result, calls, looks;
    }
    if !walk.changed {
      return out.value, if walk.lastRep.Some? then walk.lastRep else Some(ADAPTER_PASS), None, result, calls, looks;
    }
    return out.value, walk.lastRep, None, result, calls, looks;
  }
}
