/** Scope requirements: checking them, and merging what several components declare (scope.go). */
module Scopes {
  import opened Wrappers

  /** Dynamic types are opaque tags; what is known about them is what reflection reports. */
  type Type = nat
  datatype Universe = Universe(name: Type -> string, isInterface: Type -> bool, implements: (Type, Type) -> bool)

  /** A declared requirement. An empty type name asks for the key only. */
  datatype Requirement = Requirement(key: string, typeName: string, expected: Option<Type>)
  {
    /** accepts; a value is given by its dynamic type, which a nil value does not have. */
    predicate Accepts(u: Universe, value: Option<Type>) {
      typeName == "" ||
      (value.Some? &&
       (if expected.None? then u.name(value.value) == typeName
        else if u.isInterface(expected.value) then u.implements(value.value, expected.value)
        else value.value == expected.value))
    }

    /** The key has a value of the wrong type. */
    predicate Mismatched(u: Universe, scope: Scope) {
      key != "" && scope.Find(key).Some? && !Accepts(u, scope.Find(key).value)
    }

    predicate Missing(scope: Scope) {
      key != "" && scope.Find(key).None?
    }
  }

  /** A scope given by its lookup function; no scope at all has no keys. */
  datatype Scope = NoScope | Scope(lookup: string -> Option<Option<Type>>)
  {
    function Find(key: string): Option<Option<Type>> {
      if NoScope? then None else lookup(key)
    }
  }

  datatype Check = Complete | TypeError(req: Requirement) | Incomplete(missing: seq<string>, missingReqs: seq<Requirement>)

  // ----- checking

  function MissingReqs(scope: Scope, reqs: seq<Requirement>): seq<Requirement> {
    if reqs == [] then []
    else
      var front, last := MissingReqs(scope, reqs[..|reqs| - 1]), reqs[|reqs| - 1];
      if last.Missing(scope) then front + [last] else front
  }

  function Keys(reqs: seq<Requirement>): seq<string> {
    seq(|reqs|, i requires 0 <= i < |reqs| => reqs[i].key)
  }

  /** Requirement i is the first one with a value of the wrong type. */
  predicate FirstMismatch(u: Universe, scope: Scope, reqs: seq<Requirement>, i: nat) {
    i < |reqs| && reqs[i].Mismatched(u, scope) && forall j :: 0 <= j < i ==> !reqs[j].Mismatched(u, scope)
  }

  predicate AnyMismatch(u: Universe, scope: Scope, reqs: seq<Requirement>) {
    exists r :: r in reqs && r.Mismatched(u, scope)
  }

  /** The first wrong type wins over everything missing, and missing keys keep their order. */
  ghost predicate Answers(u: Universe, scope: Scope, reqs: seq<Requirement>, check: Check) {
    match check
    case Complete => MissingReqs(scope, reqs) == [] && !AnyMismatch(u, scope, reqs)
    case TypeError(req) => exists i: nat :: FirstMismatch(u, scope, reqs, i) && req == reqs[i]
    case Incomplete(missing, missingReqs) =>
      missingReqs == MissingReqs(scope, reqs) != [] && missing == Keys(missingReqs) && !AnyMismatch(u, scope, reqs)
  }

  /** checkScopeRequirements. */
  method CheckScopeRequirements(u: Universe, scope: Scope, requirements: seq<Requirement>) returns (check: Check)
    ensures Answers(u, scope, requirements, check)
    ensures VerdictOf(check) == Judged(u, scope, requirements)
  {
    if |requirements| == 0 {
      check := Complete;
      CheckIsJudged(u, scope, requirements, check);
      return;
    }
    var missing: seq<string>, missingReqs := [], [];
    for i := 0 to |requirements|
      invariant missingReqs == MissingReqs(scope, requirements[..i]) && missing == Keys(missingReqs)
      invariant forall j :: 0 <= j < i ==> !requirements[j].Mismatched(u, scope)
    {
      assert requirements[..i + 1][..i] == requirements[..i];
      var req := requirements[i];
      if req.key == "" {
        continue;
      }
      var value := scope.Find(req.key);
      if value.None? {
        missing := missing + [req.key];
        missingReqs := missingReqs + [req];
        continue;
      }
      if !req.Accepts(u, value.value) {
        assert FirstMismatch(u, scope, requirements, i);
        check := TypeError(req);
        CheckIsJudged(u, scope, requirements, check);
        return;
      }
    }
    assert requirements[..|requirements|] == requirements;
    check := if |missing| > 0 then Incomplete(missing, missingReqs) else Complete;
    CheckIsJudged(u, scope, requirements, check);
  }

  // ----- what a requirement means to its reader

  /** The dynamic type assertion to `target`: an interface is implemented, a concrete type is the very same; nil is neither. */
  predicate Asserts(u: Universe, value: Option<Type>, target: Type) {
    value.Some? && (if u.isInterface(target) then u.implements(value.value, target) else value == Some(target))
  }

  /** ScopeKey.Lookup. */
  function KeyLookup(u: Universe, scope: Scope, name: string, target: Type): (found: Option<Type>)
    ensures found.Some? ==> scope.Find(name) == Some(found) && Asserts(u, found, target)
  {
    var value := scope.Find(name);
    if value.Some? && Asserts(u, value.value, target) then value.value else None
  }

  /** A key alone accepts anything, nil too; a typed key what its reader's assertion accepts; a bare type name that name. */
  lemma AcceptsIff(u: Universe, r: Requirement, value: Option<Type>)
    ensures r.typeName == "" ==> r.Accepts(u, value)
    ensures r.typeName != "" && r.expected.Some? ==> (r.Accepts(u, value) <==> Asserts(u, value, r.expected.value))
    ensures r.typeName != "" && r.expected.None? ==> (r.Accepts(u, value) <==> exists t :: value == Some(t) && u.name(t) == r.typeName)
  {
  }

  /** The precheck predicts every typed lookup: it is complete exactly if no key is missing and every typed key can be read. */
  lemma CompleteIff(u: Universe, scope: Scope, reqs: seq<Requirement>, check: Check)
    requires Answers(u, scope, reqs, check)
    requires forall r :: r in reqs ==> r.key != "" && (r.typeName != "" ==> r.expected.Some?)
    ensures check == Complete <==>
            forall r :: r in reqs ==>
                          scope.Find(r.key).Some? && (r.typeName != "" ==> KeyLookup(u, scope, r.key, r.expected.value).Some?)
  {
    MissingReqsElements(scope, reqs);
    if check.TypeError? {
      var i: nat :| FirstMismatch(u, scope, reqs, i) && check.req == reqs[i];
      assert reqs[i] in reqs && reqs[i].Mismatched(u, scope);
    }
    assert forall r :: r in reqs && r.Mismatched(u, scope) ==> AnyMismatch(u, scope, reqs);
    if check.Incomplete? {
      assert check.missingReqs[0] in MissingReqs(scope, reqs);
    }
  }

  // ----- merging

  /** Every requirement with a key once, in the order of first declaration. */
  function Distinct(reqs: seq<Requirement>): seq<Requirement> {
    if reqs == [] then []
    else
      var front, last := Distinct(reqs[..|reqs| - 1]), reqs[|reqs| - 1];
      if last.key == "" || last in front then front else front + [last]
  }

  predicate Typed(reqs: seq<Requirement>, key: string) {
    exists r :: r in reqs && r.key == key && r.typeName != ""
  }

  /** A requirement of the key alone says nothing beside one that also asks for a type. */
  predicate Redundant(all: seq<Requirement>, r: Requirement) {
    r.typeName == "" && Typed(all, r.key)
  }

  function WithoutRedundant(reqs: seq<Requirement>, all: seq<Requirement>): seq<Requirement> {
    if reqs == [] then []
    else
      var front, last := WithoutRedundant(reqs[..|reqs| - 1], all), reqs[|reqs| - 1];
      if Redundant(all, last) then front else front + [last]
  }

  function Merge(existing: seq<Requirement>, next: seq<Requirement>): seq<Requirement> {
    if next == [] then existing
    else
      var all := Distinct(existing + next);
      WithoutRedundant(all, all)
  }

  /** mergeScopeRequirements. */
  method MergeScopeRequirements(existing: seq<Requirement>, next: seq<Requirement>) returns (merged: seq<Requirement>)
    ensures merged == Merge(existing, next)
  {
    if |next| == 0 {
      return existing;
    }
    var seen: set<Requirement>, typed: set<string>, all: seq<Requirement> := {}, {}, [];
    var groups := existing + next;
    for i := 0 to |groups|
      invariant all == Distinct(groups[..i])
      invariant forall r :: r in seen <==> r in all
      invariant forall k :: k in typed <==> Typed(all, k)
    {
      assert groups[..i + 1][..i] == groups[..i];
      var req := groups[i];
      if req.key == "" || req in seen {
        continue;
      }
      TypedSnoc(all, req);
      seen := seen + {req};
      if req.typeName != "" {
        typed := typed + {req.key};
      }
      all := all + [req];
    }
    assert groups[..|groups|] == groups;
    var filtered := [];
    for i := 0 to |all|
      invariant filtered == WithoutRedundant(all[..i], all)
    {
      assert all[..i + 1][..i] == all[..i];
      var req := all[i];
      if req.typeName == "" && req.key in typed {
        continue;
      }
      filtered := filtered + [req];
    }
    assert all[..|all|] == all;
    return filtered;
  }

  lemma TypedSnoc(reqs: seq<Requirement>, last: Requirement)
    ensures forall k :: Typed(reqs + [last], k) <==> Typed(reqs, k) || (last.key == k && last.typeName != "")
  {
    forall k
      ensures Typed(reqs + [last], k) <==> Typed(reqs, k) || (last.key == k && last.typeName != "")
    {
      var all := reqs + [last];
      if last.key == k && last.typeName != "" {
        assert all[|reqs|] == last;
        assert last in all;
      }
      if Typed(reqs, k) {
        var r :| r in reqs && r.key == k && r.typeName != "";
        assert r in all;
      }
    }
  }

  // ----- merging preserves what a check reports

  /** The requirements that reject the scope's value, and the keys it lacks. */
  ghost function Mismatches(u: Universe, scope: Scope, reqs: seq<Requirement>): set<Requirement> {
    set r | r in reqs && r.Mismatched(u, scope)
  }

  ghost function MissingKeys(scope: Scope, reqs: seq<Requirement>): set<string> {
    set r | r in reqs && r.Missing(scope) :: r.key
  }

  lemma {:induction false} DistinctElements(reqs: seq<Requirement>)
    ensures forall r :: r in Distinct(reqs) <==> r in reqs && r.key != ""
  {
    if reqs != [] {
      DistinctElements(reqs[..|reqs| - 1]);
      assert reqs == reqs[..|reqs| - 1] + [reqs[|reqs| - 1]];
    }
  }

  lemma {:induction false} KeptElements(reqs: seq<Requirement>, all: seq<Requirement>)
    ensures forall r :: r in WithoutRedundant(reqs, all) <==> r in reqs && !Redundant(all, r)
  {
    if reqs != [] {
      KeptElements(reqs[..|reqs| - 1], all);
      assert reqs == reqs[..|reqs| - 1] + [reqs[|reqs| - 1]];
    }
  }

  /** The merged list rejects exactly the values, and lacks exactly the keys, that either list does. */
  lemma MergeKeepsFailures(u: Universe, scope: Scope, a: seq<Requirement>, b: seq<Requirement>)
    ensures Mismatches(u, scope, Merge(a, b)) == Mismatches(u, scope, a) + Mismatches(u, scope, b)
    ensures MissingKeys(scope, Merge(a, b)) == MissingKeys(scope, a) + MissingKeys(scope, b)
  {
    var m := Merge(a, b);
    if b != [] {
      var all := Distinct(a + b);
      DistinctElements(a + b);
      KeptElements(all, all);
      assert forall r :: r in m ==> r in a || r in b;
      forall r | (r in a || r in b) && r.key != ""
        ensures exists kept :: kept in m && kept.key == r.key && (r.typeName != "" ==> kept == r)
      {
        assert r in all;
        if Redundant(all, r) {
          var kept :| kept in all && kept.key == r.key && kept.typeName != "";
          assert kept in m;
        } else {
          assert r in m;
        }
      }
    }
  }

  /** What a check of the list reports, up to the order of missing keys and the choice among wrong types. */
  datatype Verdict = Satisfied | WrongType | Lacks(keys: set<string>)

  ghost function Judged(u: Universe, scope: Scope, reqs: seq<Requirement>): Verdict {
    if Mismatches(u, scope, reqs) != {} then WrongType
    else if MissingKeys(scope, reqs) != {} then Lacks(MissingKeys(scope, reqs))
    else Satisfied
  }

  ghost function VerdictOf(check: Check): Verdict {
    match check
    case Complete => Satisfied
    case TypeError(_) => WrongType
    case Incomplete(missing, _) => Lacks(set k | k in missing)
  }

  lemma {:induction false} MissingReqsElements(scope: Scope, reqs: seq<Requirement>)
    ensures forall r :: r in MissingReqs(scope, reqs) <==> r in reqs && r.Missing(scope)
  {
    if reqs != [] {
      MissingReqsElements(scope, reqs[..|reqs| - 1]);
      assert reqs == reqs[..|reqs| - 1] + [reqs[|reqs| - 1]];
    }
  }

  /** The answer's verdict depends only on which requirements fail, not on their order. */
  lemma CheckIsJudged(u: Universe, scope: Scope, reqs: seq<Requirement>, check: Check)
    requires Answers(u, scope, reqs, check)
    ensures VerdictOf(check) == Judged(u, scope, reqs)
  {
    MissingReqsElements(scope, reqs);
    var missing := MissingReqs(scope, reqs);
    if check.TypeError? {
      assert check.req in Mismatches(u, scope, reqs);
    } else if check.Incomplete? {
      var keys := set k | k in Keys(missing);
      forall k
        ensures k in keys <==> k in MissingKeys(scope, reqs)
      {
        if k in keys {
          var i :| 0 <= i < |missing| && Keys(missing)[i] == k;
          assert missing[i] in missing;
        }
        if k in MissingKeys(scope, reqs) {
          var r :| r in reqs && r.Missing(scope) && r.key == k;
          var i :| 0 <= i < |missing| && missing[i] == r;
          assert Keys(missing)[i] == k;
        }
      }
      assert missing[0].key in MissingKeys(scope, reqs);
    }
  }

  /** What a pipeline or an argument boundary requires: the declarations of its parts, merged one after the other. */
  function MergeAll(declared: seq<seq<Requirement>>): seq<Requirement> {
    if declared == [] then [] else Merge(MergeAll(declared[..|declared| - 1]), declared[|declared| - 1])
  }

  /** The verdict of checking every declaration on its own: a wrong type anywhere, else everything missing anywhere. */
  ghost function JudgedEach(u: Universe, scope: Scope, declared: seq<seq<Requirement>>): Verdict {
    if exists d :: d in declared && Judged(u, scope, d).WrongType? then WrongType
    else
      var keys := set d, k | d in declared && k in MissingKeys(scope, d) :: k;
      if keys != {} then Lacks(keys) else Satisfied
  }

  lemma {:induction false} MergeAllKeepsFailures(u: Universe, scope: Scope, declared: seq<seq<Requirement>>)
    ensures forall r :: r in Mismatches(u, scope, MergeAll(declared)) <==> exists d :: d in declared && r in Mismatches(u, scope, d)
    ensures forall k :: k in MissingKeys(scope, MergeAll(declared)) <==> exists d :: d in declared && k in MissingKeys(scope, d)
  {
    if declared != [] {
      var front, last := declared[..|declared| - 1], declared[|declared| - 1];
      MergeAllKeepsFailures(u, scope, front);
      MergeKeepsFailures(u, scope, MergeAll(front), last);
      assert declared == front + [last];
    }
  }

  /** Merging preserves meaning: one check of the merged list tells the same as checking all the declarations. */
  lemma MergeAllPreservesVerdict(u: Universe, scope: Scope, declared: seq<seq<Requirement>>)
    ensures Judged(u, scope, MergeAll(declared)) == JudgedEach(u, scope, declared)
    ensures Judged(u, scope, MergeAll(declared)).Satisfied? <==> forall d :: d in declared ==> Judged(u, scope, d).Satisfied?
  {
    MergeAllKeepsFailures(u, scope, declared);
    var m := MergeAll(declared);
    var keys := set d, k | d in declared && k in MissingKeys(scope, d) :: k;
    assert keys == MissingKeys(scope, m);
    if Mismatches(u, scope, m) != {} {
      var r :| r in Mismatches(u, scope, m);
      var d :| d in declared && r in Mismatches(u, scope, d);
      assert Judged(u, scope, d).WrongType?;
    } else {
      forall d | d in declared
        ensures !Judged(u, scope, d).WrongType?
      {
        assert forall r :: r in Mismatches(u, scope, d) ==> r in Mismatches(u, scope, m);
      }
      if k :| k in keys {
        var d :| d in declared && k in MissingKeys(scope, d);
        assert !Judged(u, scope, d).Satisfied?;
      }
      forall d | d in declared && !Judged(u, scope, d).Satisfied?
        ensures keys != {}
      {
        var k :| k in MissingKeys(scope, d);
        assert k in keys;
      }
    }
  }

  // ----- merging is idempotent on merged lists

  predicate NoRepeats(reqs: seq<Requirement>) {
    forall i, j :: 0 <= i < j < |reqs| ==> reqs[i] != reqs[j]
  }

  /** A list that merging has nothing left to do on. */
  ghost predicate Canonical(reqs: seq<Requirement>) {
    && NoRepeats(reqs)
    && (forall r :: r in reqs ==> r.key != "" && !Redundant(reqs, r))
  }

  lemma {:induction false} DistinctIsDistinct(reqs: seq<Requirement>)
    ensures NoRepeats(Distinct(reqs))
  {
    if reqs != [] {
      DistinctIsDistinct(reqs[..|reqs| - 1]);
    }
  }

  lemma {:induction false} KeptIsDistinct(reqs: seq<Requirement>, all: seq<Requirement>)
    requires NoRepeats(reqs)
    ensures NoRepeats(WithoutRedundant(reqs, all))
  {
    if reqs != [] {
      var front, last := reqs[..|reqs| - 1], reqs[|reqs| - 1];
      KeptIsDistinct(front, all);
      KeptElements(front, all);
      assert last !in front && last !in WithoutRedundant(front, all);
    }
  }

  lemma {:induction false} DistinctTwice(reqs: seq<Requirement>, more: seq<Requirement>)
    requires forall r :: r in more ==> r in reqs && r.key != ""
    ensures Distinct(reqs + more) == Distinct(reqs)
    decreases |more|
  {
    if more == [] {
      assert reqs + more == reqs;
    } else {
      var front, last := more[..|more| - 1], more[|more| - 1];
      DistinctTwice(reqs, front);
      assert (reqs + more)[..|reqs + more| - 1] == reqs + front;
      DistinctElements(reqs + front);
    }
  }

  lemma {:induction false} DistinctOfCanonical(reqs: seq<Requirement>)
    requires NoRepeats(reqs)
    requires forall r :: r in reqs ==> r.key != ""
    ensures Distinct(reqs) == reqs
  {
    if reqs != [] {
      var front, last := reqs[..|reqs| - 1], reqs[|reqs| - 1];
      DistinctOfCanonical(front);
      assert reqs == front + [last];
    }
  }

  lemma {:induction false} NothingRedundant(reqs: seq<Requirement>, all: seq<Requirement>)
    requires forall r :: r in reqs ==> !Redundant(all, r)
    ensures WithoutRedundant(reqs, all) == reqs
  {
    if reqs != [] {
      var front, last := reqs[..|reqs| - 1], reqs[|reqs| - 1];
      NothingRedundant(front, all);
      assert reqs == front + [last];
    }
  }

  lemma MergedIsCanonical(a: seq<Requirement>, b: seq<Requirement>)
    requires b != [] || Canonical(a)
    ensures Canonical(Merge(a, b))
  {
    hide Distinct, WithoutRedundant, NoRepeats;
    if b != [] {
      var all := Distinct(a + b);
      DistinctElements(a + b);
      DistinctIsDistinct(a + b);
      KeptElements(all, all);
      KeptIsDistinct(all, all);
      var m := Merge(a, b);
      forall r | r in m
        ensures r.key != "" && !Redundant(m, r)
      {
        assert r in all && !Redundant(all, r);
        assert forall typed :: typed in m ==> typed in all;
      }
    }
  }

  /**
   * Merging a list with itself gives it back exactly when it is canonical. A list that was only ever merged with
   * nothing keeps its duplicates, since an empty second list returns early.
   */
  lemma MergeSelfIff(m: seq<Requirement>)
    ensures Merge(m, m) == m <==> Canonical(m)
  {
    if Canonical(m) {
      DistinctTwice(m, m);
      DistinctOfCanonical(m);
      NothingRedundant(m, m);
    } else {
      MergedIsCanonical(m, m);
    }
  }

  /** What a pipeline ends up requiring is canonical, whatever its parts declare, so merging it again changes nothing. */
  lemma {:induction false} MergeAllIdempotent(declared: seq<seq<Requirement>>)
    ensures Canonical(MergeAll(declared))
    ensures Merge(MergeAll(declared), MergeAll(declared)) == MergeAll(declared)
  {
    if declared != [] {
      MergeAllIdempotent(declared[..|declared| - 1]);
      MergedIsCanonical(MergeAll(declared[..|declared| - 1]), declared[|declared| - 1]);
    }
    MergeSelfIff(MergeAll(declared));
  }
}
