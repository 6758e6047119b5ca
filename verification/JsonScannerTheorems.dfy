/** The recogniser accepts exactly the grammar, with unique member names and bounded nesting. */
module JsonScannerTheorems {
  import opened Wrappers
  import opened Utf8
  import opened Framing
  import opened JsonGrammar
  import opened JsonFraming
  import opened JsonScanner

  // ----- texts at positions

  predicate At(s: bytes, i: nat, text: bytes) {
    i + |text| <= |s| && s[i..i + |text|] == text
  }

  lemma AtBoth(s: bytes, i: nat, a: bytes, b: bytes)
    ensures At(s, i, a + b) <==> At(s, i, a) && At(s, i + |a|, b)
  {
    var n := |a| + |b|;
    if i + n <= |s| {
      assert s[i..i + n] == s[i..i + |a|] + s[i + |a|..i + n];
      if s[i..i + n] == a + b {
        assert s[i..i + |a|] == (a + b)[..|a|] == a;
        assert s[i + |a|..i + n] == (a + b)[|a|..] == b;
      }
    }
  }

  lemma AtSlice(s: bytes, i: nat, j: nat)
    requires i <= j <= |s|
    ensures At(s, i, s[i..j])
    ensures j == i + 1 ==> At(s, i, [s[i]])
  {
  }

  lemma AtFirst(s: bytes, i: nat, text: bytes)
    requires At(s, i, text) && text != []
    ensures i < |s| && s[i] == text[0]
  {
  }

  lemma Slices(s: bytes, i: nat, m: nat, n: nat)
    requires i <= m <= n <= |s|
    ensures s[i..n] == s[i..m] + s[m..n]
  {
  }

  // ----- soundness: what is accepted is in the grammar

  lemma {:induction false} SkipSpaceSound(s: bytes, i: nat)
    requires i <= |s|
    ensures AllSpace(s[i..SkipSpace(s, i)])
    decreases |s| - i
  {
    if i < |s| && IsSpace(s[i]) {
      SkipSpaceSound(s, i + 1);
      Slices(s, i, i + 1, SkipSpace(s, i));
    }
  }

  lemma {:induction false} SkipDigitsSound(s: bytes, i: nat)
    requires i <= |s|
    ensures SkipDigits(s, i) > i ==> AllDigits(s[i..SkipDigits(s, i)])
    decreases |s| - i
  {
    if i < |s| && IsDigit(s[i]) {
      SkipDigitsSound(s, i + 1);
      Slices(s, i, i + 1, SkipDigits(s, i));
    }
  }

  lemma {:induction false} BodySound(s: bytes, i: nat)
    requires i <= |s| && BodyEnd(s, i).Some?
    ensures IsBody(s[i..BodyEnd(s, i).value])
    decreases |s| - i
  {
    var end := BodyEnd(s, i).value;
    var body := s[i..end];
    if s[i] != QUOTE {
      if s[i] == BACKSLASH {
        var e := EscapeEnd(s, i + 1).value;
        BodySound(s, e);
        assert body[e - i..] == s[e..end];
        assert forall k :: 0 <= k < e - i ==> body[k] == s[i + k];
      } else {
        BodySound(s, i + 1);
        assert body[1..] == s[i + 1..end];
      }
    }
  }

  lemma NumberSound(s: bytes, i: nat)
    requires i < |s| && ParseNumber(s, i).Ok?
    ensures var p := ParseNumber(s, i); IsValue(p.tree) && p.tree.Number? && At(s, i, Show(p.tree)) && p.next == i + |Show(p.tree)|
  {
    hide At;
    var n := if s[i] == MINUS then i + 1 else i;
    var w := ParseWhole(s, n);
    var f := ParseFraction(s, w.next);
    WholeSound(s, n);
    FractionSound(s, w.next);
    ExponentSound(s, f.next);
    ShowNumberAt(s, i, ParseNumber(s, i).tree);
  }

  lemma ShowNumberAt(s: bytes, i: nat, v: Value)
    requires v.Number? && i <= |s| && (v.negative ==> i < |s| && s[i] == MINUS)
    requires var n := if v.negative then i + 1 else i;
             && At(s, n, v.whole)
             && At(s, n + |v.whole|, ShowFraction(v.fraction))
             && At(s, n + |v.whole| + |ShowFraction(v.fraction)|, ShowExponent(v.exponent))
    ensures At(s, i, Show(v))
    ensures |Show(v)| == (if v.negative then 1 else 0) + |v.whole| + |ShowFraction(v.fraction)| + |ShowExponent(v.exponent)|
  {
    hide At;
    var sign: bytes := if v.negative then [MINUS] else [];
    AtSlice(s, i, i + |sign|);
    assert sign == s[i..i + |sign|];
    AtBoth(s, i, sign, v.whole);
    AtBoth(s, i, sign + v.whole, ShowFraction(v.fraction));
    AtBoth(s, i, sign + v.whole + ShowFraction(v.fraction), ShowExponent(v.exponent));
  }

  lemma WholeSound(s: bytes, i: nat)
    requires i <= |s| && ParseWhole(s, i).Ok?
    ensures var p := ParseWhole(s, i); IsWhole(p.tree) && At(s, i, p.tree) && p.next == i + |p.tree|
  {
    if s[i] != ZERO {
      SkipDigitsSound(s, i);
    }
  }

  lemma FractionSound(s: bytes, i: nat)
    requires i <= |s| && ParseFraction(s, i).Ok?
    ensures var p := ParseFraction(s, i);
            (p.tree.Some? ==> AllDigits(p.tree.value)) && At(s, i, ShowFraction(p.tree)) && p.next == i + |ShowFraction(p.tree)|
  {
    var p := ParseFraction(s, i);
    if p.tree.Some? {
      SkipDigitsSound(s, i + 1);
      AtBoth(s, i, [DOT], p.tree.value);
    }
  }

  lemma ExponentSound(s: bytes, i: nat)
    requires i <= |s| && ParseExponent(s, i).Ok?
    ensures var p := ParseExponent(s, i);
            (p.tree.Some? ==> IsExponent(p.tree.value)) && At(s, i, ShowExponent(p.tree)) && p.next == i + |ShowExponent(p.tree)|
  {
    hide ParseDigits, AllDigits, IsExponent;
    var p := ParseExponent(s, i);
    if p.tree.Some? {
      hide ParseExponent, ShowExponent;
      ExponentParts(s, i);
      ExponentAt(s, i, p.tree.value, p.next);
    }
  }

  lemma ExponentParts(s: bytes, i: nat)
    requires i <= |s| && ParseExponent(s, i).Ok? && ParseExponent(s, i).tree.Some?
    ensures var e, next := ParseExponent(s, i).tree.value, ParseExponent(s, i).next;
            var sign: bytes := if e.sign.Some? then [e.sign.value] else [];
            && IsExponent(e) && i + 1 + |sign| <= next <= |s|
            && s[i] == e.mark && s[i + 1..i + 1 + |sign|] == sign && s[i + 1 + |sign|..next] == e.digits
  {
    hide SkipDigits, AllDigits;
    var e := ParseExponent(s, i).tree.value;
    SkipDigitsSound(s, if e.sign.Some? then i + 2 else i + 1);
  }

  /** The parts of an exponent, read off the text one after the other. */
  lemma ExponentAt(s: bytes, i: nat, e: Exponent, next: nat)
    requires var sign: bytes := if e.sign.Some? then [e.sign.value] else [];
             i + 1 + |sign| <= next <= |s| && s[i] == e.mark && s[i + 1..i + 1 + |sign|] == sign && s[i + 1 + |sign|..next] == e.digits
    ensures At(s, i, ShowExponent(Some(e))) && next == i + |ShowExponent(Some(e))|
  {
    hide *;
    var sign: bytes := if e.sign.Some? then [e.sign.value] else [];
    var m := i + 1 + |sign|;
    AtSlice(s, i, i + 1);
    AtSlice(s, i + 1, m);
    AtSlice(s, m, next);
    AtBoth(s, i, [e.mark], sign);
    AtBoth(s, i, [e.mark] + sign, e.digits);
    ShowsExponent(e, sign);
  }

  lemma ShowsExponent(e: Exponent, sign: bytes)
    requires sign == if e.sign.Some? then [e.sign.value] else []
    ensures ShowExponent(Some(e)) == [e.mark] + sign + e.digits
  {
  }

  /** What is accepted from i is the text of a bindable value, and exactly that text is consumed. */
  lemma {:induction false} ValueSound(unquote: Unquote, s: bytes, i: nat, depth: nat)
    requires i <= |s| && depth <= MAX_DEPTH && ParseValue(unquote, s, i, depth).Ok?
    ensures var p := ParseValue(unquote, s, i, depth);
            Bindable(unquote, p.tree, depth) && At(s, i, Show(p.tree)) && p.next == i + |Show(p.tree)|
    decreases |s| - i, 0
  {
    if s[i] == LEFT_BRACE {
      ContainerSound(unquote, s, i, depth, ObjectKind);
    } else if s[i] == LEFT_BRACKET {
      ContainerSound(unquote, s, i, depth, ArrayKind);
    } else if s[i] == QUOTE {
      StringSound(s, i);
    } else if s[i] == 116 {
      LiteralSound(s, i, TRUE);
    } else if s[i] == 102 {
      LiteralSound(s, i, FALSE);
    } else if s[i] == 110 {
      LiteralSound(s, i, NULL);
    } else {
      NumberSound(s, i);
    }
  }

  lemma LiteralSound(s: bytes, i: nat, word: bytes)
    requires i <= |s|
    ensures ParseLiteral(s, i, word).Ok? <==> At(s, i, word)
  {
    if i + |word| <= |s| {
      assert s[i..][..|word|] == s[i..i + |word|];
    }
  }

  lemma {:induction false} ContainerSound(unquote: Unquote, s: bytes, i: nat, depth: nat, kind: Kind)
    requires i < |s| && depth < MAX_DEPTH && s[i] == Opening(kind) && ParseContainer(unquote, s, i, depth, kind).Ok?
    ensures var p := ParseContainer(unquote, s, i, depth, kind);
            Bindable(unquote, p.tree, depth) && At(s, i, Show(p.tree)) && p.next == i + |Show(p.tree)|
    decreases |s| - i - 1, 3
  {
    var p := ParseContainer(unquote, s, i, depth, kind);
    if p.tree.Empty? {
      var j := SkipSpace(s, i + 1);
      SkipSpaceSound(s, i + 1);
      EmptyAt(s, i, j, p.tree);
    } else {
      EntriesSound(unquote, s, i + 1, depth + 1, kind, {});
      NonEmptyAt(unquote, s, i, depth, kind, p.tree, p.next);
    }
  }

  lemma EmptyAt(s: bytes, i: nat, j: nat, v: Value)
    requires v.Empty? && i < j < |s| && s[i] == Opening(v.kind) && s[j] == Closing(v.kind) && v.gap == s[i + 1..j]
    ensures At(s, i, Show(v)) && j + 1 == i + |Show(v)|
  {
    AtSlice(s, i + 1, j);
    AtSlice(s, j, j + 1);
    BracketsAt(s, i, v);
  }

  lemma NonEmptyAt(unquote: Unquote, s: bytes, i: nat, depth: nat, kind: Kind, v: Value, next: nat)
    requires depth < MAX_DEPTH && i < |s| && s[i] == Opening(kind) && v.Container? && v.kind == kind
    requires SoundEntries(unquote, s, i + 1, depth + 1, kind, {}, v.entries, next)
    ensures Bindable(unquote, v, depth) && At(s, i, Show(v)) && next == i + |Show(v)|
  {
    AtBoth(s, i + 1, Inner(v), [Closing(kind)]);
    BracketsAt(s, i, v);
  }

  lemma BracketsAt(s: bytes, i: nat, v: Value)
    requires IsContainer(v) && i < |s| && s[i] == Opening(v.kind)
    requires At(s, i + 1, Inner(v)) && At(s, i + 1 + |Inner(v)|, [Closing(v.kind)])
    ensures At(s, i, Show(v)) && |Show(v)| == |Inner(v)| + 2
  {
    hide At;
    AtSlice(s, i, i + 1);
    AtBoth(s, i, [Opening(v.kind)], Inner(v));
    AtBoth(s, i, [Opening(v.kind)] + Inner(v), [Closing(v.kind)]);
  }

  lemma LabelSound(s: bytes, i: nat)
    requires i <= |s| && ParseLabel(s, i).Ok?
    ensures var p := ParseLabel(s, i);
            && IsBody(p.tree.name) && AllSpace(p.tree.gap) && AllSpace(p.tree.lead)
            && At(s, i, ShowLabel(Some(p.tree))) && p.next == i + |ShowLabel(Some(p.tree))|
  {
    hide At, IsBody, AllSpace, BodyEnd, SkipSpace, Quoted;
    var p := ParseLabel(s, i);
    var t := ParseString(s, i);
    var colon := SkipSpace(s, t.next);
    StringSound(s, i);
    SkipSpaceSound(s, t.next);
    SkipSpaceSound(s, colon + 1);
    AtSlice(s, t.next, colon);
    AtSlice(s, colon, colon + 1);
    AtSlice(s, colon + 1, p.next);
    LabelAt(s, i, p.tree);
  }

  lemma StringSound(s: bytes, i: nat)
    requires i <= |s| && ParseString(s, i).Ok?
    ensures var t := ParseString(s, i); IsBody(t.tree) && At(s, i, Quoted(t.tree)) && t.next == i + |Quoted(t.tree)|
  {
    BodySound(s, i + 1);
  }

  lemma LabelAt(s: bytes, i: nat, l: Label)
    requires var g := i + |Quoted(l.name)|;
             && At(s, i, Quoted(l.name)) && At(s, g, l.gap)
             && At(s, g + |l.gap|, [COLON]) && At(s, g + |l.gap| + 1, l.lead)
    ensures At(s, i, ShowLabel(Some(l)))
    ensures |ShowLabel(Some(l))| == |Quoted(l.name)| + |l.gap| + 1 + |l.lead|
  {
    hide At, Quoted;
    var g := i + |Quoted(l.name)|;
    AtBoth(s, g, l.gap, [COLON]);
    AtBoth(s, g, l.gap + [COLON], l.lead);
    AtBoth(s, i, Quoted(l.name), Separator(l));
  }

  /** The text behind an entry: the end of its container. */
  function ShowAfter(es: Entries, kind: Kind): bytes {
    if es.Last? then [Closing(kind)] else [COMMA] + ShowEntries(es.rest) + [Closing(kind)]
  }

  lemma ShowEntriesAfter(es: Entries, kind: Kind)
    ensures ShowEntries(es) + [Closing(kind)] == ShowEntry(es.entry) + ShowAfter(es, kind)
  {
    if es.More? {
      var e := ShowEntry(es.entry);
      assert e + [COMMA] + ShowEntries(es.rest) + [Closing(kind)] == e + ([COMMA] + ShowEntries(es.rest) + [Closing(kind)]);
    }
  }

  /** Entries whose closing bracket is included stand at i and end at next. */
  ghost predicate SoundEntries(unquote: Unquote, s: bytes, i: nat, depth: nat, kind: Kind, seen: set<bytes>, es: Entries, next: nat) {
    && Good(unquote, depth, kind, seen, es)
    && At(s, i, ShowEntries(es) + [Closing(kind)])
    && next == i + |ShowEntries(es)| + 1
  }

  predicate Good(unquote: Unquote, depth: nat, kind: Kind, seen: set<bytes>, es: Entries) {
    IsEntries(es, kind) && UniqueEntries(unquote, es, seen) && depth + DepthEntries(es) <= MAX_DEPTH
  }

  predicate GoodEntry(unquote: Unquote, depth: nat, kind: Kind, seen: set<bytes>, e: Entry) {
    IsEntry(e, kind) && FreshKey(unquote, e, seen) && Bindable(unquote, e.value, depth)
  }

  lemma GoodLast(unquote: Unquote, depth: nat, kind: Kind, seen: set<bytes>, e: Entry, after: bytes)
    requires GoodEntry(unquote, depth, kind, seen, e) && AllSpace(after)
    ensures Good(unquote, depth, kind, seen, Last(e.(after := after)))
  {
  }

  lemma GoodMore(unquote: Unquote, depth: nat, kind: Kind, seen: set<bytes>, e: Entry, after: bytes, rest: Entries)
    requires GoodEntry(unquote, depth, kind, seen, e) && AllSpace(after)
    requires Good(unquote, depth, kind, WithKey(unquote, e, seen), rest)
    ensures Good(unquote, depth, kind, seen, More(e.(after := after), rest))
  {
  }

  lemma {:induction false} EntriesSound(unquote: Unquote, s: bytes, i: nat, depth: nat, kind: Kind, seen: set<bytes>)
    requires i <= |s| && depth <= MAX_DEPTH && ParseEntries(unquote, s, i, depth, kind, seen).Ok?
    ensures var p := ParseEntries(unquote, s, i, depth, kind, seen); SoundEntries(unquote, s, i, depth, kind, seen, p.tree, p.next)
    decreases |s| - i, 2
  {
    hide ParseHead, ParseMore, SoundEntries, SoundEntry;
    var head := ParseHead(unquote, s, i, depth, kind, seen);
    HeadSound(unquote, s, i, depth, kind, seen);
    MoreSound(unquote, s, head.tree, i, head.next, depth, kind, seen);
  }

  lemma {:induction false} HeadSound(unquote: Unquote, s: bytes, i: nat, depth: nat, kind: Kind, seen: set<bytes>)
    requires i <= |s| && depth <= MAX_DEPTH && ParseHead(unquote, s, i, depth, kind, seen).Ok?
    ensures var p := ParseHead(unquote, s, i, depth, kind, seen); SoundEntry(unquote, s, i, p.next, depth, kind, seen, p.tree)
    decreases |s| - i, 1
  {
    hide At, ParseTag, ParseValue, Show, ShowLabel, ShowEntry, KeyOf;
    var e := ParseHead(unquote, s, i, depth, kind, seen).tree;
    var start := SkipSpace(s, i);
    SkipSpaceSound(s, i);
    AtSlice(s, i, start);
    TagSound(unquote, s, start, kind, seen);
    ValueSound(unquote, s, start + |ShowLabel(e.tag)|, depth);
    HeadAt(s, i, e);
  }

  lemma TagSound(unquote: Unquote, s: bytes, i: nat, kind: Kind, seen: set<bytes>)
    requires i <= |s| && ParseTag(unquote, s, i, kind, seen).Ok?
    ensures var p := ParseTag(unquote, s, i, kind, seen);
            && (p.tree.Some? <==> kind == ObjectKind)
            && (p.tree.Some? ==>
                  && IsBody(p.tree.value.name) && AllSpace(p.tree.value.gap) && AllSpace(p.tree.value.lead)
                  && KeyOf(unquote, p.tree.value.name) !in seen)
            && At(s, i, ShowLabel(p.tree)) && p.next == i + |ShowLabel(p.tree)|
  {
    if kind == ObjectKind {
      LabelSound(s, i);
    }
  }

  lemma HeadAt(s: bytes, i: nat, e: Entry)
    requires At(s, i, e.before) && At(s, i + |e.before|, ShowLabel(e.tag))
    requires At(s, i + |e.before| + |ShowLabel(e.tag)|, Show(e.value)) && e.after == []
    ensures At(s, i, ShowEntry(e)) && |ShowEntry(e)| == |e.before| + |ShowLabel(e.tag)| + |Show(e.value)|
  {
    AtBoth(s, i, e.before, ShowLabel(e.tag));
    AtBoth(s, i, e.before + ShowLabel(e.tag), Show(e.value));
    assert ShowEntry(e) == e.before + ShowLabel(e.tag) + Show(e.value);
  }

  /** An entry without its trailing whitespace, standing between from and i. */
  ghost predicate SoundEntry(unquote: Unquote, s: bytes, from: nat, i: nat, depth: nat, kind: Kind, seen: set<bytes>, e: Entry) {
    && GoodEntry(unquote, depth, kind, seen, e) && e.after == []
    && At(s, from, ShowEntry(e)) && i == from + |ShowEntry(e)|
  }

  /** From the end of an entry's value at i, the entry having started at `from`. */
  lemma {:induction false} MoreSound(unquote: Unquote, s: bytes, e: Entry, from: nat, i: nat, depth: nat, kind: Kind, seen: set<bytes>)
    requires i <= |s| && depth <= MAX_DEPTH && ParseMore(unquote, s, e, i, depth, kind, seen).Ok?
    requires SoundEntry(unquote, s, from, i, depth, kind, seen, e)
    ensures var p := ParseMore(unquote, s, e, i, depth, kind, seen); SoundEntries(unquote, s, from, depth, kind, seen, p.tree, p.next)
    decreases |s| - i, 3
  {
    hide At, ParseEntries, ParseMore, ParseValue, SoundEntries, SoundEntry;
    var p := ParseMore(unquote, s, e, i, depth, kind, seen);
    var j := SkipSpace(s, i);
    SkipSpaceSound(s, i);
    MoreStep(unquote, s, e, i, depth, kind, seen);
    if p.tree.More? {
      EntriesSound(unquote, s, j + 1, depth, kind, WithKey(unquote, e, seen));
      JoinMore(unquote, s, from, i, j, depth, kind, seen, e, p.tree.rest, p.next);
    } else {
      JoinLast(unquote, s, from, i, j, depth, kind, seen, e);
    }
  }

  lemma JoinLast(unquote: Unquote, s: bytes, from: nat, i: nat, j: nat, depth: nat, kind: Kind, seen: set<bytes>, e: Entry)
    requires SoundEntry(unquote, s, from, i, depth, kind, seen, e)
    requires i <= j < |s| && AllSpace(s[i..j]) && s[j] == Closing(kind)
    ensures SoundEntries(unquote, s, from, depth, kind, seen, Last(e.(after := s[i..j])), j + 1)
  {
    hide At, Good, GoodEntry;
    GoodLast(unquote, depth, kind, seen, e, s[i..j]);
    AtSlice(s, i, j);
    AtSlice(s, j, j + 1);
    EntryAt(s, from, e, s[i..j]);
    EntriesAt(s, from, Last(e.(after := s[i..j])), kind);
  }

  lemma JoinMore(unquote: Unquote, s: bytes, from: nat, i: nat, j: nat, depth: nat, kind: Kind, seen: set<bytes>, e: Entry,
                 rest: Entries, next: nat)
    requires SoundEntry(unquote, s, from, i, depth, kind, seen, e)
    requires i <= j < |s| && AllSpace(s[i..j]) && s[j] == COMMA
    requires SoundEntries(unquote, s, j + 1, depth, kind, WithKey(unquote, e, seen), rest, next)
    ensures SoundEntries(unquote, s, from, depth, kind, seen, More(e.(after := s[i..j]), rest), next)
  {
    hide At, Good, GoodEntry;
    var es := More(e.(after := s[i..j]), rest);
    GoodMore(unquote, depth, kind, seen, e, s[i..j], rest);
    AtSlice(s, i, j);
    EntryAt(s, from, e, s[i..j]);
    AfterCommaAt(s, j, es, kind);
    EntriesAt(s, from, es, kind);
  }

  lemma MoreStep(unquote: Unquote, s: bytes, e: Entry, i: nat, depth: nat, kind: Kind, seen: set<bytes>)
    requires i <= |s| && ParseMore(unquote, s, e, i, depth, kind, seen).Ok?
    ensures var p, j := ParseMore(unquote, s, e, i, depth, kind, seen), SkipSpace(s, i);
            && j < |s| && p.tree.entry == e.(after := s[i..j])
            && (p.tree.Last? ==> s[j] == Closing(kind) && p.next == j + 1)
            && (p.tree.More? ==>
                  && s[j] == COMMA
                  && ParseEntries(unquote, s, j + 1, depth, kind, WithKey(unquote, e, seen)) == Ok(p.tree.rest, p.next))
  {
  }

  lemma EntryAt(s: bytes, from: nat, e: Entry, after: bytes)
    requires e.after == [] && At(s, from, ShowEntry(e)) && At(s, from + |ShowEntry(e)|, after)
    ensures var entry := e.(after := after);
            At(s, from, ShowEntry(entry)) && |ShowEntry(entry)| == |ShowEntry(e)| + |after|
  {
    hide At;
    AtBoth(s, from, ShowEntry(e), after);
    assert ShowEntry(e) == e.before + ShowLabel(e.tag) + Show(e.value);
  }

  lemma AfterCommaAt(s: bytes, j: nat, es: Entries, kind: Kind)
    requires es.More? && j < |s| && s[j] == COMMA && At(s, j + 1, ShowEntries(es.rest) + [Closing(kind)])
    ensures At(s, j, ShowAfter(es, kind)) && |ShowAfter(es, kind)| == |ShowEntries(es.rest)| + 2
  {
    hide At;
    var tail := ShowEntries(es.rest) + [Closing(kind)];
    AtSlice(s, j, j + 1);
    AtBoth(s, j, [COMMA], tail);
    assert ShowAfter(es, kind) == [COMMA] + tail;
  }

  lemma EntriesAt(s: bytes, from: nat, es: Entries, kind: Kind)
    requires At(s, from, ShowEntry(es.entry)) && At(s, from + |ShowEntry(es.entry)|, ShowAfter(es, kind))
    ensures At(s, from, ShowEntries(es) + [Closing(kind)])
    ensures |ShowEntries(es)| + 1 == |ShowEntry(es.entry)| + |ShowAfter(es, kind)|
  {
    hide At;
    AtBoth(s, from, ShowEntry(es.entry), ShowAfter(es, kind));
    ShowEntriesAfter(es, kind);
    assert |ShowEntries(es) + [Closing(kind)]| == |ShowEntry(es.entry) + ShowAfter(es, kind)|;
  }

  // ----- completeness: every text of the grammar is accepted, as the tree it was printed from

  /** A number that stops here cannot go on. */
  predicate Ends(s: bytes, k: nat) {
    k <= |s| && (k < |s| ==> !IsDigit(s[k]) && s[k] != DOT && s[k] != 101 && s[k] != 69)
  }

  lemma {:induction false} SkipSpaceComplete(s: bytes, i: nat, gap: bytes)
    requires At(s, i, gap) && AllSpace(gap) && (i + |gap| < |s| ==> !IsSpace(s[i + |gap|]))
    ensures SkipSpace(s, i) == i + |gap|
    decreases |gap|
  {
    if gap != [] {
      AtRest(s, i, gap);
      SkipSpaceComplete(s, i + 1, gap[1..]);
    }
  }

  lemma AtRest(s: bytes, i: nat, text: bytes)
    requires At(s, i, text) && text != []
    ensures i < |s| && s[i] == text[0] && At(s, i + 1, text[1..])
  {
    assert text == [text[0]] + text[1..];
    AtBoth(s, i, [text[0]], text[1..]);
  }

  lemma {:induction false} SkipDigitsComplete(s: bytes, i: nat, digits: bytes)
    requires At(s, i, digits) && (forall k :: 0 <= k < |digits| ==> IsDigit(digits[k]))
    requires i + |digits| < |s| ==> !IsDigit(s[i + |digits|])
    ensures SkipDigits(s, i) == i + |digits|
    decreases |digits|
  {
    if digits != [] {
      AtRest(s, i, digits);
      SkipDigitsComplete(s, i + 1, digits[1..]);
    }
  }

  lemma {:induction false} BodyComplete(s: bytes, i: nat, body: bytes)
    requires IsBody(body) && At(s, i, body) && i + |body| < |s| && s[i + |body|] == QUOTE
    ensures BodyEnd(s, i) == Some(i + |body|)
    decreases |body|
  {
    if body != [] {
      AtFirst(s, i, body);
      var n := if body[0] != BACKSLASH then 1 else if |body| >= 2 && IsSimpleEscape(body[1]) then 2 else 6;
      assert body == body[..n] + body[n..];
      AtBoth(s, i, body[..n], body[n..]);
      BodyComplete(s, i + n, body[n..]);
      if n > 1 {
        EscapeComplete(s, i + 1, body[1..n]);
      }
    }
  }

  lemma EscapeComplete(s: bytes, i: nat, escape: bytes)
    requires i + |escape| <= |s| && forall k :: 0 <= k < |escape| ==> s[i + k] == escape[k]
    requires || (|escape| == 1 && IsSimpleEscape(escape[0]))
             || (|escape| == 5 && !IsSimpleEscape(escape[0]) && IsUnicodeEscape([BACKSLASH] + escape))
    ensures EscapeEnd(s, i) == Some(i + |escape|)
  {
    if |escape| == 5 {
      var whole := [BACKSLASH] + escape;
      assert escape[0] == whole[1] && escape[1] == whole[2] && escape[2] == whole[3] && escape[3] == whole[4] && escape[4] == whole[5];
      assert s[i + 1] == escape[1] && s[i + 2] == escape[2] && s[i + 3] == escape[3] && s[i + 4] == escape[4];
    }
  }

  lemma StringComplete(s: bytes, i: nat, body: bytes)
    requires IsBody(body) && At(s, i, Quoted(body))
    ensures ParseString(s, i) == Ok(body, i + |body| + 2)
  {
    hide At, IsBody, BodyEnd;
    AtBoth(s, i, [QUOTE] + body, [QUOTE]);
    AtBoth(s, i, [QUOTE], body);
    AtFirst(s, i, [QUOTE]);
    AtFirst(s, i + 1 + |body|, [QUOTE]);
    BodyComplete(s, i + 1, body);
    AtIsSlice(s, i + 1, body);
  }

  lemma DigitsComplete(s: bytes, i: nat, digits: bytes)
    requires AllDigits(digits) && At(s, i, digits) && (i + |digits| < |s| ==> !IsDigit(s[i + |digits|]))
    ensures ParseDigits(s, i) == Ok(digits, i + |digits|)
  {
    SkipDigitsComplete(s, i, digits);
  }

  lemma WholeComplete(s: bytes, i: nat, whole: bytes)
    requires IsWhole(whole) && At(s, i, whole) && (i + |whole| < |s| ==> !IsDigit(s[i + |whole|]))
    ensures ParseWhole(s, i) == Ok(whole, i + |whole|)
  {
    AtFirst(s, i, whole);
    if whole != [ZERO] {
      DigitsComplete(s, i, whole);
    }
  }

  lemma FractionComplete(s: bytes, i: nat, f: Option<bytes>)
    requires (f.Some? ==> AllDigits(f.value)) && At(s, i, ShowFraction(f)) && i <= |s|
    requires var k := i + |ShowFraction(f)|; k < |s| ==> !IsDigit(s[k]) && s[k] != DOT
    ensures ParseFraction(s, i) == Ok(f, i + |ShowFraction(f)|)
  {
    if f.Some? {
      AtBoth(s, i, [DOT], f.value);
      AtFirst(s, i, [DOT]);
      DigitsComplete(s, i + 1, f.value);
    }
  }

  lemma ExponentComplete(s: bytes, i: nat, e: Option<Exponent>)
    requires (e.Some? ==> IsExponent(e.value)) && At(s, i, ShowExponent(e)) && Ends(s, i + |ShowExponent(e)|)
    ensures ParseExponent(s, i) == Ok(e, i + |ShowExponent(e)|)
  {
    hide At, ParseDigits;
    if e.Some? {
      var sign: bytes := if e.value.sign.Some? then [e.value.sign.value] else [];
      var d := i + 1 + |sign|;
      AtBoth(s, i, [e.value.mark] + sign, e.value.digits);
      AtBoth(s, i, [e.value.mark], sign);
      AtFirst(s, i, [e.value.mark]);
      AtFirst(s, d, e.value.digits);
      if e.value.sign.Some? {
        AtFirst(s, i + 1, sign);
      }
      DigitsComplete(s, d, e.value.digits);
    }
  }

  lemma NumberComplete(s: bytes, i: nat, v: Value)
    requires v.Number? && IsValue(v) && At(s, i, Show(v)) && Ends(s, i + |Show(v)|)
    ensures i < |s| && ParseNumber(s, i) == Ok(v, i + |Show(v)|)
    ensures s[i] == MINUS || IsDigit(s[i])
  {
    hide *;
    NumberParts(v);
    NumberPlaces(s, i, v);
    var w, f, e := v.whole, ShowFraction(v.fraction), ShowExponent(v.exponent);
    var n := if v.negative then i + 1 else i;
    NextOfNumber(s, n + |w| + |f|, v.exponent);
    ExponentComplete(s, n + |w| + |f|, v.exponent);
    FractionComplete(s, n + |w|, v.fraction);
    NextOfFraction(s, n + |w|, v.fraction);
    WholeComplete(s, n, w);
    NumberStep(s, i, v, n + |w|, n + |w| + |f|, n + |w| + |f| + |e|);
  }

  lemma NumberParts(v: Value)
    requires v.Number? && IsValue(v)
    ensures IsWhole(v.whole) && v.whole != [] && IsDigit(v.whole[0])
    ensures (v.fraction.Some? ==> AllDigits(v.fraction.value)) && (v.exponent.Some? ==> IsExponent(v.exponent.value))
  {
  }

  /** The parts of a number at their places. */
  lemma NumberPlaces(s: bytes, i: nat, v: Value)
    requires v.Number? && At(s, i, Show(v)) && v.whole != [] && IsDigit(v.whole[0])
    ensures var n := if v.negative then i + 1 else i;
            && i < |s| && n < |s| && (v.negative ==> s[i] == MINUS) && IsDigit(s[n]) && s[n] != MINUS
            && At(s, n, v.whole)
            && At(s, n + |v.whole|, ShowFraction(v.fraction))
            && At(s, n + |v.whole| + |ShowFraction(v.fraction)|, ShowExponent(v.exponent))
            && i + |Show(v)| == n + |v.whole| + |ShowFraction(v.fraction)| + |ShowExponent(v.exponent)| <= |s|
  {
    hide At, ShowFraction, ShowExponent;
    var sign: bytes := if v.negative then [MINUS] else [];
    var w, f, e := v.whole, ShowFraction(v.fraction), ShowExponent(v.exponent);
    AtBoth(s, i, sign + w + f, e);
    AtBoth(s, i, sign + w, f);
    AtBoth(s, i, sign, w);
    AtFirst(s, i + |sign|, w);
    if v.negative {
      AtFirst(s, i, sign);
    }
    AtEnd(s, i, Show(v));
  }

  lemma AtEnd(s: bytes, i: nat, text: bytes)
    requires At(s, i, text)
    ensures i + |text| <= |s|
  {
  }

  lemma NextOfFraction(s: bytes, k: nat, f: Option<bytes>)
    requires (f.Some? ==> AllDigits(f.value)) && At(s, k, ShowFraction(f))
    requires var n := k + |ShowFraction(f)|; n < |s| ==> !IsDigit(s[n])
    ensures k <= |s| && (k < |s| ==> !IsDigit(s[k]))
  {
    if f.Some? {
      AtFirst(s, k, ShowFraction(f));
    }
  }

  lemma NumberStep(s: bytes, i: nat, v: Value, w: nat, f: nat, e: nat)
    requires v.Number? && i < |s|
    requires (v.negative ==> s[i] == MINUS) && (!v.negative ==> s[i] != MINUS)
    requires var n := if v.negative then i + 1 else i; n <= |s| && ParseWhole(s, n) == Ok(v.whole, w)
    requires w <= f <= |s| && ParseFraction(s, w) == Ok(v.fraction, f) && ParseExponent(s, f) == Ok(v.exponent, e)
    ensures ParseNumber(s, i) == Ok(v, e)
  {
    hide ParseWhole, ParseFraction, ParseExponent;
  }

  lemma WholeStart(whole: bytes)
    requires IsWhole(whole)
    ensures whole != [] && IsDigit(whole[0])
  {
  }

  /** What follows a number's digits is no digit, and no dot where an exponent or the end comes next. */
  lemma NextOfNumber(s: bytes, k: nat, e: Option<Exponent>)
    requires (e.Some? ==> IsExponent(e.value)) && At(s, k, ShowExponent(e)) && Ends(s, k + |ShowExponent(e)|)
    ensures k <= |s| && (k < |s| ==> !IsDigit(s[k]) && s[k] != DOT)
  {
    if e.Some? {
      AtFirst(s, k, ShowExponent(e));
    }
  }

  /** The first byte of a value shows its kind and is neither whitespace nor punctuation that ends something. */
  lemma FirstByte(v: Value)
    requires IsValue(v)
    ensures Show(v) != []
    ensures var b := Show(v)[0];
            && !IsSpace(b) && b != RIGHT_BRACE && b != RIGHT_BRACKET && b != COMMA && b != COLON
            && (v.Literal? ==> b == v.word[0])
            && (v.Number? ==> b == MINUS || IsDigit(b))
            && (v.String? ==> b == QUOTE)
            && (IsContainer(v) ==> b == Opening(v.kind))
  {
    if v.Number? {
      var sign: bytes := if v.negative then [MINUS] else [];
      assert (sign + v.whole)[0] == if v.negative then MINUS else v.whole[0];
    }
  }

  /** The text of a bindable value is accepted as exactly that value; only a number must not go on behind it. */
  lemma {:induction false} ValueComplete(unquote: Unquote, s: bytes, i: nat, v: Value, depth: nat)
    requires Bindable(unquote, v, depth) && At(s, i, Show(v)) && (v.Number? ==> Ends(s, i + |Show(v)|))
    ensures ParseValue(unquote, s, i, depth) == Ok(v, i + |Show(v)|)
    decreases v, 0
  {
    hide *;
    BindableParts(unquote, v, depth);
    FirstByte(v);
    AtFirst(s, i, Show(v));
    match v
    case Literal(w) =>
      ShowScalar(v);
      LiteralSound(s, i, w);
      LiteralStep(unquote, s, i, v, depth);
    case Number(_, _, _, _) =>
      NumberComplete(s, i, v);
      NumberValue(unquote, s, i, depth);
    case String(body) =>
      ShowScalar(v);
      StringComplete(s, i, body);
      StringStep(unquote, s, i, depth, body, i + |body| + 2);
    case Empty(_, _) =>
      EmptyComplete(unquote, s, i, v, depth);
      ContainerValue(unquote, s, i, depth, v.kind);
    case Container(_, _) =>
      ContainerComplete(unquote, s, i, v, depth);
      ContainerValue(unquote, s, i, depth, v.kind);
  }

  lemma BindableParts(unquote: Unquote, v: Value, depth: nat)
    requires Bindable(unquote, v, depth)
    ensures IsValue(v) && (v.Literal? ==> v.word == TRUE || v.word == FALSE || v.word == NULL)
    ensures (v.String? ==> IsBody(v.body)) && (IsContainer(v) ==> depth < MAX_DEPTH) && (v.Empty? || v.Container? ==> IsContainer(v))
  {
  }

  lemma ShowScalar(v: Value)
    ensures v.Literal? ==> Show(v) == v.word
    ensures v.String? ==> Show(v) == Quoted(v.body) && |Show(v)| == |v.body| + 2
  {
  }

  lemma LiteralStep(unquote: Unquote, s: bytes, i: nat, v: Value, depth: nat)
    requires v.Literal? && (v.word == TRUE || v.word == FALSE || v.word == NULL)
    requires i < |s| && s[i] == v.word[0] && ParseLiteral(s, i, v.word).Ok?
    ensures ParseValue(unquote, s, i, depth) == Ok(v, i + |v.word|)
  {
    hide ParseContainer, ParseString, ParseNumber;
  }

  lemma NumberValue(unquote: Unquote, s: bytes, i: nat, depth: nat)
    requires i < |s| && (s[i] == MINUS || IsDigit(s[i]))
    ensures ParseValue(unquote, s, i, depth) == ParseNumber(s, i)
  {
    hide ParseContainer, ParseString, ParseLiteral, ParseNumber;
  }

  lemma StringStep(unquote: Unquote, s: bytes, i: nat, depth: nat, body: bytes, next: nat)
    requires i < |s| && s[i] == QUOTE && ParseString(s, i) == Ok(body, next)
    ensures ParseValue(unquote, s, i, depth) == Ok(String(body), next)
  {
    hide ParseContainer, ParseString, ParseLiteral, ParseNumber;
  }

  lemma ContainerValue(unquote: Unquote, s: bytes, i: nat, depth: nat, kind: Kind)
    requires i < |s| && s[i] == Opening(kind) && depth < MAX_DEPTH
    ensures ParseValue(unquote, s, i, depth) == ParseContainer(unquote, s, i, depth, kind)
  {
    hide ParseContainer, ParseString, ParseLiteral, ParseNumber;
  }

  lemma EmptyComplete(unquote: Unquote, s: bytes, i: nat, v: Value, depth: nat)
    requires v.Empty? && Bindable(unquote, v, depth) && At(s, i, Show(v))
    ensures i < |s| && ParseContainer(unquote, s, i, depth, v.kind) == Ok(v, i + |Show(v)|)
  {
    BracketsOf(s, i, v);
    AtFirst(s, i + 1 + |v.gap|, [Closing(v.kind)]);
    SkipSpaceComplete(s, i + 1, v.gap);
  }

  lemma BracketsOf(s: bytes, i: nat, v: Value)
    requires IsContainer(v) && At(s, i, Show(v))
    ensures i < |s| && s[i] == Opening(v.kind)
    ensures At(s, i + 1, Inner(v)) && At(s, i + 1 + |Inner(v)|, [Closing(v.kind)]) && |Show(v)| == |Inner(v)| + 2
  {
    AtBoth(s, i, [Opening(v.kind)] + Inner(v), [Closing(v.kind)]);
    AtBoth(s, i, [Opening(v.kind)], Inner(v));
    AtFirst(s, i, [Opening(v.kind)]);
  }

  lemma {:induction false} ContainerComplete(unquote: Unquote, s: bytes, i: nat, v: Value, depth: nat)
    requires v.Container? && Bindable(unquote, v, depth) && At(s, i, Show(v))
    ensures i < |s| && ParseContainer(unquote, s, i, depth, v.kind) == Ok(v, i + |Show(v)|)
    decreases v.entries, 3
  {
    hide At, ParseEntries, ParseContainer, Show, ShowEntries, SkipSpace;
    var es := v.entries;
    BracketsOf(s, i, v);
    AtBoth(s, i + 1, ShowEntries(es), [Closing(v.kind)]);
    NotEmpty(s, i + 1, es, v.kind);
    assert Good(unquote, depth + 1, v.kind, {}, es);
    EntriesComplete(unquote, s, i + 1, es, depth + 1, v.kind, {});
    ContainerStep(unquote, s, i, depth, v.kind, es, i + |Show(v)|);
  }

  lemma ContainerStep(unquote: Unquote, s: bytes, i: nat, depth: nat, kind: Kind, es: Entries, next: nat)
    requires i < |s| && SkipSpace(s, i + 1) < |s| && s[SkipSpace(s, i + 1)] != Closing(kind)
    requires ParseEntries(unquote, s, i + 1, depth + 1, kind, {}) == Ok(es, next)
    ensures ParseContainer(unquote, s, i, depth, kind) == Ok(Container(kind, es), next)
  {
    hide ParseEntries;
  }

  /** The parts of an entry at their places. */
  lemma EntryOf(s: bytes, i: nat, e: Entry)
    requires At(s, i, ShowEntry(e))
    ensures At(s, i, e.before)
    ensures var t := i + |e.before|;
            && At(s, t, ShowLabel(e.tag))
            && At(s, t + |ShowLabel(e.tag)|, Show(e.value))
            && At(s, t + |ShowLabel(e.tag)| + |Show(e.value)|, e.after)
            && i + |ShowEntry(e)| == t + |ShowLabel(e.tag)| + |Show(e.value)| + |e.after|
  {
    AtBoth(s, i, e.before + ShowLabel(e.tag) + Show(e.value), e.after);
    AtBoth(s, i, e.before + ShowLabel(e.tag), Show(e.value));
    AtBoth(s, i, e.before, ShowLabel(e.tag));
  }

  /** Behind an entry's leading whitespace stands a quote or a value's first byte. */
  lemma EntryStart(s: bytes, i: nat, e: Entry, kind: Kind)
    requires At(s, i, ShowEntry(e)) && IsEntry(e, kind)
    ensures SkipSpace(s, i) == i + |e.before| < |s|
    ensures s[i + |e.before|] != Closing(kind)
  {
    EntryOf(s, i, e);
    var t := i + |e.before|;
    if e.tag.Some? {
      AtFirst(s, t, ShowLabel(e.tag));
    } else {
      FirstByte(e.value);
      AtFirst(s, t, Show(e.value));
    }
    SkipSpaceComplete(s, i, e.before);
  }

  lemma NotEmpty(s: bytes, i: nat, es: Entries, kind: Kind)
    requires IsEntries(es, kind) && At(s, i, ShowEntries(es) + [Closing(kind)])
    ensures i <= |s| && SkipSpace(s, i) < |s| && s[SkipSpace(s, i)] != Closing(kind)
  {
    ShowEntriesAfter(es, kind);
    AtBoth(s, i, ShowEntry(es.entry), ShowAfter(es, kind));
    EntryStart(s, i, es.entry, kind);
  }

  lemma {:induction false} EntriesComplete(unquote: Unquote, s: bytes, i: nat, es: Entries, depth: nat, kind: Kind, seen: set<bytes>)
    requires Good(unquote, depth, kind, seen, es) && At(s, i, ShowEntries(es) + [Closing(kind)])
    ensures i <= |s| && ParseEntries(unquote, s, i, depth, kind, seen) == Ok(es, i + |ShowEntries(es)| + 1)
    decreases es, 2
  {
    hide At, ParseHead, ParseMore;
    var e := es.entry;
    ShowEntriesAfter(es, kind);
    AtBoth(s, i, ShowEntry(e), ShowAfter(es, kind));
    AfterEntry(s, i + |ShowEntry(e)|, es, kind);
    GoodFirst(unquote, depth, kind, seen, es);
    HeadComplete(unquote, s, i, e, depth, kind, seen);
    EntryOf(s, i, e);
    MoreComplete(unquote, s, i + |ShowEntry(e)| - |e.after|, es, depth, kind, seen);
    assert |ShowEntries(es) + [Closing(kind)]| == |ShowEntry(e) + ShowAfter(es, kind)|;
  }

  lemma GoodFirst(unquote: Unquote, depth: nat, kind: Kind, seen: set<bytes>, es: Entries)
    requires Good(unquote, depth, kind, seen, es)
    ensures GoodEntry(unquote, depth, kind, seen, es.entry)
    ensures es.More? ==> Good(unquote, depth, kind, WithKey(unquote, es.entry, seen), es.rest)
  {
  }

  /** An entry is followed by a comma or the closing bracket. */
  lemma AfterEntry(s: bytes, k: nat, es: Entries, kind: Kind)
    requires At(s, k, ShowAfter(es, kind))
    ensures k < |s| && s[k] == (if es.Last? then Closing(kind) else COMMA)
    ensures es.More? ==> At(s, k + 1, ShowEntries(es.rest) + [Closing(kind)])
  {
    AtFirst(s, k, ShowAfter(es, kind));
    if es.More? {
      var tail := ShowEntries(es.rest) + [Closing(kind)];
      assert ShowAfter(es, kind) == [COMMA] + tail;
      AtBoth(s, k, [COMMA], tail);
    }
  }

  lemma {:induction false} HeadComplete(unquote: Unquote, s: bytes, i: nat, e: Entry, depth: nat, kind: Kind, seen: set<bytes>)
    requires GoodEntry(unquote, depth, kind, seen, e) && At(s, i, ShowEntry(e))
    requires var k := i + |ShowEntry(e)|; k < |s| && (s[k] == Closing(kind) || s[k] == COMMA)
    ensures i <= |s| && ParseHead(unquote, s, i, depth, kind, seen) == Ok(e.(after := []), i + |ShowEntry(e)| - |e.after|)
    decreases e, 1
  {
    hide At, Ends, SkipSpace, IsEntry, UniqueKeys, KeyOf, ParseTag, ParseValue, ParseHead, Show, ShowLabel, ShowEntry;
    HeadPlaces(s, i, e, kind);
    var t := i + |e.before|;
    var at := t + |ShowLabel(e.tag)|;
    TagComplete(unquote, s, t, e, kind, seen);
    ValueComplete(unquote, s, at, e.value, depth);
    HeadStep(unquote, s, i, e, t, at, at + |Show(e.value)|, depth, kind, seen);
  }

  lemma HeadPlaces(s: bytes, i: nat, e: Entry, kind: Kind)
    requires IsEntry(e, kind) && At(s, i, ShowEntry(e))
    requires var k := i + |ShowEntry(e)|; k < |s| && (s[k] == Closing(kind) || s[k] == COMMA)
    ensures var t := i + |e.before|;
            var at := t + |ShowLabel(e.tag)|;
            var n := at + |Show(e.value)|;
            && n <= |s| && SkipSpace(s, i) == t && s[i..t] == e.before
            && At(s, t, ShowLabel(e.tag)) && At(s, at, Show(e.value)) && Ends(s, n)
            && n == i + |ShowEntry(e)| - |e.after|
  {
    hide At, Ends, SkipSpace, Show, ShowLabel, ShowEntry;
    EntryStart(s, i, e, kind);
    EntryOf(s, i, e);
    EndsBefore(s, i + |ShowEntry(e)| - |e.after|, e.after);
    AtIsSlice(s, i, e.before);
  }

  lemma HeadStep(unquote: Unquote, s: bytes, i: nat, e: Entry, t: nat, at: nat, next: nat, depth: nat, kind: Kind, seen: set<bytes>)
    requires i <= t <= at <= |s| && SkipSpace(s, i) == t && s[i..t] == e.before
    requires ParseTag(unquote, s, t, kind, seen) == Ok(e.tag, at)
    requires ParseValue(unquote, s, at, depth) == Ok(e.value, next)
    ensures ParseHead(unquote, s, i, depth, kind, seen) == Ok(e.(after := []), next)
  {
    hide ParseTag, ParseValue;
  }

  lemma AtIsSlice(s: bytes, i: nat, text: bytes)
    requires At(s, i, text)
    ensures i + |text| <= |s| && s[i..i + |text|] == text
  {
  }

  lemma EndsBefore(s: bytes, k: nat, after: bytes)
    requires At(s, k, after) && AllSpace(after) && k + |after| < |s|
    requires var b := s[k + |after|]; b == RIGHT_BRACE || b == RIGHT_BRACKET || b == COMMA
    ensures Ends(s, k)
  {
    if after != [] {
      AtFirst(s, k, after);
    }
  }

  lemma TagComplete(unquote: Unquote, s: bytes, i: nat, e: Entry, kind: Kind, seen: set<bytes>)
    requires IsEntry(e, kind) && FreshKey(unquote, e, seen) && At(s, i, ShowLabel(e.tag))
    requires At(s, i + |ShowLabel(e.tag)|, Show(e.value))
    ensures i <= |s| && ParseTag(unquote, s, i, kind, seen) == Ok(e.tag, i + |ShowLabel(e.tag)|)
  {
    FirstByte(e.value);
    AtFirst(s, i + |ShowLabel(e.tag)|, Show(e.value));
    if e.tag.Some? {
      LabelComplete(s, i, e.tag.value);
      AtBoth(s, i, Quoted(e.tag.value.name), Separator(e.tag.value));
      StringComplete(s, i, e.tag.value.name);
    }
  }

  lemma LabelComplete(s: bytes, i: nat, l: Label)
    requires IsBody(l.name) && AllSpace(l.gap) && AllSpace(l.lead) && At(s, i, ShowLabel(Some(l)))
    requires var k := i + |ShowLabel(Some(l))|; k < |s| && !IsSpace(s[k])
    ensures i <= |s| && ParseLabel(s, i) == Ok(l, i + |ShowLabel(Some(l))|)
  {
    hide *;
    LabelPlaces(s, i, l);
    var g := i + |l.name| + 2;
    var c := g + |l.gap|;
    StringComplete(s, i, l.name);
    SkipSpaceComplete(s, g, l.gap);
    SkipSpaceComplete(s, c + 1, l.lead);
    LabelStep(s, i, l, g, c, c + 1 + |l.lead|);
  }

  /** The parts of a label at their places. */
  lemma LabelPlaces(s: bytes, i: nat, l: Label)
    requires At(s, i, ShowLabel(Some(l)))
    ensures var g := i + |l.name| + 2;
            var c := g + |l.gap|;
            var n := c + 1 + |l.lead|;
            && At(s, i, Quoted(l.name)) && At(s, g, l.gap) && At(s, c + 1, l.lead)
            && n <= |s| && n == i + |ShowLabel(Some(l))|
            && s[c] == COLON && !IsSpace(s[c]) && s[g..c] == l.gap && s[c + 1..n] == l.lead
  {
    hide At, Quoted;
    var q := Quoted(l.name);
    QuotedLength(l.name);
    var g := i + |q|;
    var c := g + |l.gap|;
    assert ShowLabel(Some(l)) == q + Separator(l);
    AtBoth(s, i, q, Separator(l));
    AtBoth(s, g, l.gap + [COLON], l.lead);
    AtBoth(s, g, l.gap, [COLON]);
    AtFirst(s, c, [COLON]);
    AtIsSlice(s, g, l.gap);
    AtIsSlice(s, c + 1, l.lead);
  }

  lemma QuotedLength(body: bytes)
    ensures |Quoted(body)| == |body| + 2
  {
  }

  lemma LabelStep(s: bytes, i: nat, l: Label, g: nat, c: nat, n: nat)
    requires i <= g <= c < n <= |s| && ParseString(s, i) == Ok(l.name, g)
    requires SkipSpace(s, g) == c && s[c] == COLON && SkipSpace(s, c + 1) == n
    requires s[g..c] == l.gap && s[c + 1..n] == l.lead
    ensures ParseLabel(s, i) == Ok(l, n)
  {
  }

  lemma {:induction false} MoreComplete(unquote: Unquote, s: bytes, i: nat, es: Entries, depth: nat, kind: Kind, seen: set<bytes>)
    requires Good(unquote, depth, kind, seen, es)
    requires At(s, i, es.entry.after) && At(s, i + |es.entry.after|, ShowAfter(es, kind))
    ensures i <= |s|
    ensures ParseMore(unquote, s, es.entry.(after := []), i, depth, kind, seen) ==
            Ok(es, i + |es.entry.after| + |ShowAfter(es, kind)|)
    decreases es, 1
  {
    hide At, ParseEntries, Good, SkipSpace, ShowEntries, AllSpace, KeyOf;
    var k := i + |es.entry.after|;
    AfterEntry(s, k, es, kind);
    GoodFirst(unquote, depth, kind, seen, es);
    AtIsSlice(s, i, es.entry.after);
    SkipSpaceComplete(s, i, es.entry.after);
    if es.More? {
      EntriesComplete(unquote, s, k + 1, es.rest, depth, kind, WithKey(unquote, es.entry, seen));
    }
  }

  // ----- whole documents

  /** A document: one bindable value between whitespace. */
  ghost predicate IsDocument(unquote: Unquote, s: bytes) {
    exists lead: bytes, v: Value, trail: bytes :: DocumentOf(unquote, s, lead, v, trail)
  }

  predicate DocumentOf(unquote: Unquote, s: bytes, lead: bytes, v: Value, trail: bytes) {
    AllSpace(lead) && AllSpace(trail) && Bindable(unquote, v, 0) && s == lead + Show(v) + trail
  }

  /** What the recogniser's caller accepts: a value, then only whitespace. */
  predicate Recognised(unquote: Unquote, s: bytes) {
    var p := ParseValue(unquote, s, SkipSpace(s, 0), 0);
    p.Ok? && SkipSpace(s, p.next) == |s|
  }

  /** Exactly the documents of the grammar are recognised. */
  lemma RecognisedIffDocument(unquote: Unquote, s: bytes)
    ensures Recognised(unquote, s) <==> IsDocument(unquote, s)
  {
    if Recognised(unquote, s) {
      RecognisedSound(unquote, s);
    }
    if lead: bytes, v: Value, trail: bytes :| DocumentOf(unquote, s, lead, v, trail) {
      PrintedIsRecognised(unquote, s, lead, v, trail);
    }
  }

  lemma RecognisedSound(unquote: Unquote, s: bytes)
    requires Recognised(unquote, s)
    ensures IsDocument(unquote, s)
  {
    hide ParseValue, Show;
    var i := SkipSpace(s, 0);
    var p := ParseValue(unquote, s, i, 0);
    SkipSpaceSound(s, 0);
    SkipSpaceSound(s, p.next);
    ValueSound(unquote, s, i, 0);
    Slices(s, 0, i, p.next);
    Slices(s, 0, p.next, |s|);
    assert s[0..|s|] == s;
    assert DocumentOf(unquote, s, s[0..i], p.tree, s[p.next..|s|]);
  }

  /** Every printed document tree is accepted, as that very tree: parsing undoes printing. */
  lemma PrintedIsRecognised(unquote: Unquote, s: bytes, lead: bytes, v: Value, trail: bytes)
    requires DocumentOf(unquote, s, lead, v, trail)
    ensures SkipSpace(s, 0) == |lead| <= |s|
    ensures ParseValue(unquote, s, |lead|, 0) == Ok(v, |lead| + |Show(v)|)
    ensures Recognised(unquote, s)
  {
    hide *;
    PrintedPieces(unquote, s, lead, v, trail);
    AtFirst(s, |lead|, Show(v));
    SkipSpaceComplete(s, 0, lead);
    EndsBeforeTrail(s, |lead| + |Show(v)|, trail);
    ValueComplete(unquote, s, |lead|, v, 0);
    SkipSpaceComplete(s, |lead| + |Show(v)|, trail);
    RecognisedStep(unquote, s, |lead|, v, |lead| + |Show(v)|);
  }

  lemma PrintedPieces(unquote: Unquote, s: bytes, lead: bytes, v: Value, trail: bytes)
    requires DocumentOf(unquote, s, lead, v, trail)
    ensures AllSpace(lead) && AllSpace(trail) && Bindable(unquote, v, 0) && IsValue(v)
    ensures At(s, 0, lead) && At(s, |lead|, Show(v)) && At(s, |lead| + |Show(v)|, trail) && |s| == |lead| + |Show(v)| + |trail|
    ensures Show(v) != [] && !IsSpace(Show(v)[0])
  {
    hide Show, At, AllSpace;
    PiecesAt(s, lead, Show(v), trail);
    FirstByte(v);
  }

  lemma EndsBeforeTrail(s: bytes, k: nat, trail: bytes)
    requires At(s, k, trail) && AllSpace(trail) && k + |trail| == |s|
    ensures Ends(s, k)
  {
    if trail != [] {
      AtFirst(s, k, trail);
    }
  }

  lemma RecognisedStep(unquote: Unquote, s: bytes, i: nat, v: Value, n: nat)
    requires SkipSpace(s, 0) == i <= |s| && ParseValue(unquote, s, i, 0) == Ok(v, n) && SkipSpace(s, n) == |s|
    ensures Recognised(unquote, s)
  {
    hide ParseValue, SkipSpace;
  }

  lemma PiecesAt(s: bytes, a: bytes, b: bytes, c: bytes)
    requires s == a + b + c
    ensures At(s, 0, a) && At(s, |a|, b) && At(s, |a| + |b|, c)
  {
    assert s[0..|s|] == s;
    AtBoth(s, 0, a + b, c);
    AtBoth(s, 0, a, b);
  }

  /** The accepted tree is determined by the text. */
  lemma PrintingIsInjective(unquote: Unquote, v: Value, w: Value)
    requires Bindable(unquote, v, 0) && Bindable(unquote, w, 0) && Show(v) == Show(w)
    ensures v == w
  {
    var s := Show(v);
    assert s == [] + s + [];
    PrintedIsRecognised(unquote, s, [], v, []);
    PrintedIsRecognised(unquote, s, [], w, []);
  }

  // ----- the nesting limit

  /** n arrays, each inside the one before. */
  function Nest(n: nat): (v: Value)
    requires n > 0
  {
    if n == 1 then Empty(ArrayKind, []) else Container(ArrayKind, Last(Entry([], None, Nest(n - 1), [])))
  }

  lemma {:induction false} NestIs(unquote: Unquote, n: nat)
    requires n > 0
    ensures IsValue(Nest(n)) && UniqueKeys(unquote, Nest(n)) && Depth(Nest(n)) == n
    ensures Show(Nest(n)) == [LEFT_BRACKET] + (if n == 1 then [] else Show(Nest(n - 1))) + [RIGHT_BRACKET]
  {
    if n > 1 {
      NestIs(unquote, n - 1);
      assert [] + Show(Nest(n - 1)) + [] == Show(Nest(n - 1));
    }
  }

  /** Nested arrays are recognised up to the limit and no further. */
  lemma NestingLimit(unquote: Unquote, n: nat)
    requires n > 0
    ensures Recognised(unquote, Show(Nest(n))) <==> n <= 10000
  {
    hide Show, Nest, ParseValue, Depth, UniqueKeys, IsValue;
    var s := Show(Nest(n));
    NestIs(unquote, n);
    assert [] + s + [] == s;
    if n <= 10000 {
      PrintedIsRecognised(unquote, s, [], Nest(n), []);
    } else {
      TooDeep(unquote, s, 0, n, 0);
    }
  }

  lemma {:induction false} TooDeep(unquote: Unquote, s: bytes, i: nat, n: nat, depth: nat)
    requires n > 0 && depth <= MAX_DEPTH < depth + n && At(s, i, Show(Nest(n)))
    ensures i <= |s| && ParseValue(unquote, s, i, depth).Bad?
    decreases n
  {
    hide *;
    NestPlaces(unquote, s, i, n);
    if depth < MAX_DEPTH {
      NestPlaces(unquote, s, i + 1, n - 1);
      TooDeep(unquote, s, i + 1, n - 1, depth + 1);
      ArrayOfBad(unquote, s, i, depth);
    } else {
      NoDeeper(unquote, s, i);
    }
  }

  lemma NestPlaces(unquote: Unquote, s: bytes, i: nat, n: nat)
    requires n > 0 && At(s, i, Show(Nest(n)))
    ensures i < |s| && s[i] == LEFT_BRACKET && (n > 1 ==> At(s, i + 1, Show(Nest(n - 1))))
  {
    hide Show, Nest;
    NestIs(unquote, n);
    AtBoth(s, i, [LEFT_BRACKET] + (if n == 1 then [] else Show(Nest(n - 1))), [RIGHT_BRACKET]);
    AtBoth(s, i, [LEFT_BRACKET], if n == 1 then [] else Show(Nest(n - 1)));
    AtFirst(s, i, [LEFT_BRACKET]);
  }

  lemma NoDeeper(unquote: Unquote, s: bytes, i: nat)
    requires i < |s| && s[i] == LEFT_BRACKET
    ensures ParseValue(unquote, s, i, MAX_DEPTH).Bad?
  {
    hide ParseContainer, ParseNumber, ParseString, ParseLiteral;
  }

  /** What makes an element fail makes its array fail. */
  lemma ArrayOfBad(unquote: Unquote, s: bytes, i: nat, depth: nat)
    requires i + 1 < |s| && s[i] == s[i + 1] == LEFT_BRACKET && ParseValue(unquote, s, i + 1, depth + 1).Bad?
    ensures ParseValue(unquote, s, i, depth).Bad?
  {
    assert SkipSpace(s, i + 1) == i + 1;
    assert ParseHead(unquote, s, i + 1, depth + 1, ArrayKind, {}).Bad?;
    assert ParseEntries(unquote, s, i + 1, depth + 1, ArrayKind, {}).Bad?;
    assert ParseContainer(unquote, s, i, depth, ArrayKind).Bad?;
  }
}
