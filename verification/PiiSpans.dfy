/** Finding e-mail shapes and merging spans (ext/pii_masking.go). */
module PiiSpans {
  import opened Wrappers
  import opened Utf8

  datatype Span = Span(start: nat, end: nat)

  /** isWordRune: letters, numbers, marks and the underscore; outside ASCII it is given by Unicode tables. */
  type WordRunes = int -> bool

  const AT: byte := 64
  const DOT: byte := 46
  const MIN_TLD := 2

  predicate AsciiLetter(b: byte) { 97 <= b <= 122 || 65 <= b <= 90 }

  predicate AsciiDigit(b: byte) { 48 <= b <= 57 }

  predicate LocalByte(b: byte) {
    AsciiLetter(b) || AsciiDigit(b) || b == 46 || b == 95 || b == 37 || b == 43 || b == 45
  }

  predicate DomainByte(b: byte) { AsciiLetter(b) || AsciiDigit(b) || b == DOT || b == 45 }

  // ----- what a match is, by definition

  /** No word continues across start. */
  predicate StartsClean(word: WordRunes, s: bytes, start: nat)
    requires start <= |s|
  {
    start > 0 ==> !word(DecodeLastRune(s[..start]).rune)
  }

  predicate EndsClean(word: WordRunes, s: bytes, end: nat)
    requires end <= |s|
  {
    end < |s| ==> !word(DecodeRune(s[end..]).rune)
  }

  /** piiBoundary. */
  predicate Boundary(word: WordRunes, s: bytes, start: nat, end: nat)
    requires start <= end <= |s|
  {
    StartsClean(word, s, start) && EndsClean(word, s, end)
  }

  predicate DomainRun(s: bytes, start: nat, end: nat) {
    start <= end <= |s| && forall k :: start <= k < end ==> DomainByte(s[k])
  }

  /** A dot inside the run with only letters, at least two, from there to the end. */
  predicate TopLevelAt(s: bytes, start: nat, dot: int, end: nat) {
    && start < dot < end <= |s| && s[dot] == DOT && end - dot - 1 >= MIN_TLD
    && forall k :: dot < k < end ==> AsciiLetter(s[k])
  }

  /** [start, end) is a domain with an alphabetic top level, and no word goes on behind it. */
  ghost predicate Qualifies(word: WordRunes, s: bytes, start: nat, end: nat) {
    && DomainRun(s, start, end)
    && (exists dot :: TopLevelAt(s, start, dot, end))
    && EndsClean(word, s, end)
  }

  predicate LocalRun(s: bytes, start: nat, at: nat) {
    start <= at <= |s| && forall k :: start <= k < at ==> LocalByte(s[k])
  }

  /** An e-mail address by brute force: local part, at sign, qualifying domain, bounded on both sides. */
  ghost predicate IsEmail(word: WordRunes, s: bytes, start: nat, at: nat, end: nat) {
    && start < at < |s| && s[at] == AT
    && LocalRun(s, start, at)
    && Qualifies(word, s, at + 1, end)
    && StartsClean(word, s, start)
  }

  // ----- the loops

  /** The last dot of a run, and the letters after it; -1 where there is none. */
  predicate Tracks(s: bytes, start: nat, end: nat, dot: int, letters: int) {
    && start <= end <= |s|
    && (dot == -1 ==> letters == -1 && forall k :: start <= k < end ==> s[k] != DOT)
    && (dot != -1 ==>
          && start <= dot < end && s[dot] == DOT && (forall k :: dot < k < end ==> s[k] != DOT)
          && (letters >= 0 ==> letters == end - dot - 1 && forall k :: dot < k < end ==> AsciiLetter(s[k]))
          && (letters < 0 ==> letters == -1 && exists k :: dot < k < end && !AsciiLetter(s[k])))
  }

  lemma TopLevelLetter(s: bytes, start: nat, dot: int, end: nat, k: int)
    requires TopLevelAt(s, start, dot, end)
    ensures dot < k < end ==> s[k] != DOT
  {
    assert dot < k < end ==> AsciiLetter(s[k]);
  }

  lemma RunByte(s: bytes, start: nat, end: nat, k: int)
    requires DomainRun(s, start, end)
    ensures start <= k < end ==> DomainByte(s[k])
  {
  }

  lemma LocalRunByte(s: bytes, start: nat, at: nat, k: nat)
    requires LocalRun(s, start, at)
    ensures start < k <= at ==> LocalByte(s[k - 1])
  {
  }

  lemma TracksTopLevel(s: bytes, start: nat, end: nat, dot: int, letters: int)
    requires Tracks(s, start, end, dot, letters)
    ensures dot > start && letters >= MIN_TLD <==> exists d :: TopLevelAt(s, start, d, end)
  {
    if dot > start && letters >= MIN_TLD {
      assert TopLevelAt(s, start, dot, end);
    }
    if d :| TopLevelAt(s, start, d, end) {
      assert dot != -1;
      assert s[d] == DOT;
      TopLevelLetter(s, start, d, end, dot);
      assert d == dot;
    }
  }

  lemma NothingTracked(s: bytes, start: nat)
    requires start <= |s|
    ensures Tracks(s, start, start, -1, -1) && forall dot :: !TopLevelAt(s, start, dot, start)
  {
  }

  /** emailDomainEnd: the longest qualifying end, or 0. */
  method EmailDomainEnd(word: WordRunes, s: bytes, start: nat) returns (candidate: nat)
    requires 0 < start <= |s|
    ensures candidate > 0 ==> start < candidate && Qualifies(word, s, start, candidate)
    ensures forall end: nat :: Qualifies(word, s, start, end) ==> end <= candidate
  {
    hide DecodeRune, AsciiLetter, TopLevelAt, Tracks;
    var dot, letters := -1, -1;
    var end := start;
    candidate := 0;
    NothingTracked(s, start);
    while end < |s| && DomainByte(s[end])
      invariant DomainRun(s, start, end) && Tracks(s, start, end, dot, letters)
      invariant candidate > 0 ==> start < candidate && Qualifies(word, s, start, candidate)
      invariant forall e: nat :: e <= end && Qualifies(word, s, start, e) ==> e <= candidate
      decreases |s| - end
    {
      var value := s[end];
      dot, letters := Track(s, start, end, dot, letters);
      end := end + 1;
      TracksTopLevel(s, start, end, dot, letters);
      if dot <= start || letters < MIN_TLD {
        continue;
      }
      if end == |s| {
        candidate := end;
        continue;
      }
      var next := DecodeRune(s[end..]).rune;
      if !word(next) {
        candidate := end;
      }
    }
    forall e: nat | Qualifies(word, s, start, e)
      ensures e <= candidate
    {
      RunByte(s, start, e, end);
    }
  }

  /** One byte of the domain loop: a dot restarts the letter count, a letter continues it, anything else ends it. */
  method Track(s: bytes, start: nat, end: nat, dot: int, letters: int) returns (dot': int, letters': int)
    requires Tracks(s, start, end, dot, letters) && end < |s|
    ensures Tracks(s, start, end + 1, dot', letters')
  {
    if s[end] == DOT {
      return end, 0;
    }
    if AsciiLetter(s[end]) && letters >= 0 {
      return dot, letters + 1;
    }
    if dot != -1 && letters >= 0 {
      assert !AsciiLetter(s[end]);
    }
    return dot, -1;
  }

  /** nextPIIStart: skips positions inside a word, character by character. */
  method NextStart(word: WordRunes, s: bytes, start: nat) returns (offset: nat)
    requires start < |s|
    ensures start < offset <= |s|
    ensures forall p :: start < p < offset && AllAscii(s, start + 1, p) ==> !StartsClean(word, s, p)
    ensures offset == |s| || !word(DecodeLastRune(s[..offset]).rune)
  {
    offset := start + 1;
    while offset < |s|
      invariant start < offset <= |s|
      invariant forall p :: start < p < offset && AllAscii(s, start + 1, p) ==> !StartsClean(word, s, p)
      decreases |s| - offset
    {
      var before := DecodeLastRune(s[..offset]).rune;
      if !word(before) {
        return;
      }
      assert !StartsClean(word, s, offset);
      offset := offset + DecodeRune(s[offset..]).size;
    }
  }

  predicate AllAscii(s: bytes, from: nat, to: nat) {
    to <= |s| && forall k :: from <= k < to ==> s[k] < RUNE_SELF
  }

  /** The start of the local run before the at sign. */
  method LocalStart(s: bytes, at: nat) returns (start: nat)
    requires at <= |s|
    ensures LocalRun(s, start, at) && (start > 0 ==> !LocalByte(s[start - 1]))
  {
    start := at;
    while start > 0 && LocalByte(s[start - 1])
      invariant LocalRun(s, start, at)
    {
      start := start - 1;
    }
  }

  /** The first clean start of a local run, or at itself when there is none. */
  method CleanStart(word: WordRunes, s: bytes, from: nat, at: nat, end: nat) returns (start: nat)
    requires LocalRun(s, from, at) && at < end <= |s| && EndsClean(word, s, end)
    ensures from <= start <= |s|
    ensures start < at ==> StartsClean(word, s, start)
    ensures forall p :: from <= p < at && StartsClean(word, s, p) ==> start <= p
  {
    start := from;
    while start < at && !Boundary(word, s, start, end)
      invariant from <= start <= |s|
      invariant forall p :: from <= p < start && p < at ==> !StartsClean(word, s, p)
      decreases |s| - start
    {
      var next := NextStart(word, s, start);
      forall p | start < p < next && p < at
        ensures !StartsClean(word, s, p)
      {
        assert AllAscii(s, start + 1, p);
      }
      start := next;
    }
  }

  /** Some span contains [start, end). */
  predicate Inside(spans: seq<Span>, start: nat, end: nat) {
    exists i :: 0 <= i < |spans| && spans[i].start <= start && end <= spans[i].end
  }

  ghost predicate EmailSpan(word: WordRunes, s: bytes, span: Span) {
    exists at :: IsEmail(word, s, span.start, at, span.end)
  }

  /**
   * emailSpans: one pass over the at signs. Each span found is a bounded address, and every address, however it
   * overlaps others, lies inside a found one.
   */
  method EmailSpans(word: WordRunes, s: bytes) returns (spans: seq<Span>)
    ensures forall i :: 0 <= i < |spans| ==> spans[i].start < spans[i].end <= |s| && EmailSpan(word, s, spans[i])
    ensures forall start: nat, at: nat, end: nat :: IsEmail(word, s, start, at, end) ==> Inside(spans, start, end)
  {
    spans := [];
    for at := 0 to |s|
      invariant forall i :: 0 <= i < |spans| ==> spans[i].start < spans[i].end <= |s| && EmailSpan(word, s, spans[i])
      invariant forall start: nat, a: nat, end: nat :: a < at && IsEmail(word, s, start, a, end) ==> Inside(spans, start, end)
    {
      if s[at] != AT {
        continue;
      }
      ghost var before := spans;
      var more := SpanAt(word, s, at);
      spans := spans + more;
      forall start: nat, a: nat, end: nat | a <= at && IsEmail(word, s, start, a, end)
        ensures Inside(spans, start, end)
      {
        if a < at {
          InsideMore(before, more, start, end);
        } else {
          InsideLast(before, more, start, end);
        }
      }
    }
  }

  lemma InsideMore(spans: seq<Span>, more: seq<Span>, start: nat, end: nat)
    requires Inside(spans, start, end)
    ensures Inside(spans + more, start, end)
  {
    var i :| 0 <= i < |spans| && spans[i].start <= start && end <= spans[i].end;
    assert (spans + more)[i] == spans[i];
  }

  lemma InsideLast(spans: seq<Span>, more: seq<Span>, start: nat, end: nat)
    requires Inside(more, start, end)
    ensures Inside(spans + more, start, end)
  {
    var i :| 0 <= i < |more| && more[i].start <= start && end <= more[i].end;
    assert (spans + more)[|spans| + i] == more[i];
  }

  /** What one at sign contributes: at most one span. */
  method SpanAt(word: WordRunes, s: bytes, at: nat) returns (found: seq<Span>)
    requires at < |s| && s[at] == AT
    ensures forall i :: 0 <= i < |found| ==> found[i].start < found[i].end <= |s| && IsEmail(word, s, found[i].start, at, found[i].end)
    ensures forall start: nat, end: nat :: IsEmail(word, s, start, at, end) ==> Inside(found, start, end)
  {
    var first := LocalStart(s, at);
    var end := EmailDomainEnd(word, s, at + 1);
    if end == 0 {
      return [];
    }
    var start := CleanStart(word, s, first, at, end);
    if start < at {
      found := [Span(start, end)];
    } else {
      found := [];
    }
    forall p: nat, e: nat | IsEmail(word, s, p, at, e)
      ensures Inside(found, p, e)
    {
      LocalRunByte(s, p, at, first);
      assert start <= p && e <= end;
      assert found[0].start <= p;
    }
  }

  // ----- sorting and merging

  predicate Proper(spans: seq<Span>) { forall i :: 0 <= i < |spans| ==> spans[i].start < spans[i].end }

  /** The comparison of the sort: by start, and the longer span first. */
  predicate Before(a: Span, b: Span) {
    a.start < b.start || (a.start == b.start && a.end >= b.end)
  }

  predicate SortedSpans(spans: seq<Span>) {
    forall i, j :: 0 <= i < j < |spans| ==> Before(spans[i], spans[j])
  }

  function Insert(span: Span, spans: seq<Span>): seq<Span> {
    if spans == [] || Before(span, spans[0]) then [span] + spans else [spans[0]] + Insert(span, spans[1..])
  }

  /** Stands for slices.SortFunc; the comparison is total, so the result is determined. */
  function Sort(spans: seq<Span>): seq<Span> {
    if spans == [] then [] else Insert(spans[0], Sort(spans[1..]))
  }

  lemma {:induction false} InsertElements(span: Span, spans: seq<Span>)
    ensures multiset(Insert(span, spans)) == multiset(spans) + multiset{span}
  {
    hide Before;
    if spans != [] {
      assert spans == [spans[0]] + spans[1..];
      InsertElements(span, spans[1..]);
    }
  }

  lemma {:induction false} InsertKeeps(span: Span, spans: seq<Span>)
    requires SortedSpans(spans)
    ensures SortedSpans(Insert(span, spans)) && multiset(Insert(span, spans)) == multiset(spans) + multiset{span}
  {
    InsertElements(span, spans);
    if spans != [] && !Before(span, spans[0]) {
      var rest := Insert(span, spans[1..]);
      InsertKeeps(span, spans[1..]);
      forall i | 0 <= i < |rest|
        ensures Before(spans[0], rest[i])
      {
        InsertedFrom(span, spans[1..], rest[i]);
      }
    }
  }

  lemma InsertedFrom(span: Span, spans: seq<Span>, x: Span)
    requires x in Insert(span, spans)
    ensures x == span || x in spans
  {
    hide Insert;
    InsertElements(span, spans);
    assert x in multiset(Insert(span, spans));
    assert x in multiset(spans) || x == span;
  }

  lemma {:induction false} SortKeeps(spans: seq<Span>)
    ensures SortedSpans(Sort(spans)) && multiset(Sort(spans)) == multiset(spans)
  {
    if spans != [] {
      SortKeeps(spans[1..]);
      InsertKeeps(spans[0], Sort(spans[1..]));
      assert spans == [spans[0]] + spans[1..];
    }
  }

  predicate Covered(spans: seq<Span>, k: nat) {
    exists i :: 0 <= i < |spans| && spans[i].start <= k < spans[i].end
  }

  /** In order, without overlap. */
  predicate Disjoint(spans: seq<Span>) {
    forall i, j :: 0 <= i < j < |spans| ==> spans[i].end <= spans[j].start
  }

  /** One turn of the merge loop. */
  function MergeOne(merged: seq<Span>, span: Span): seq<Span> {
    if |merged| > 0 && span.start < merged[|merged| - 1].end then
      var last := merged[|merged| - 1];
      merged[|merged| - 1 := Span(last.start, Max(last.end, span.end))]
    else merged + [span]
  }

  ghost predicate SameCover(merged: seq<Span>, seen: seq<Span>) {
    forall k: nat :: Covered(merged, k) <==> Covered(seen, k)
  }

  ghost predicate AllInside(merged: seq<Span>, seen: seq<Span>) {
    forall i :: 0 <= i < |seen| ==> Inside(merged, seen[i].start, seen[i].end)
  }

  predicate EndsAmong(merged: seq<Span>, seen: seq<Span>) {
    forall i :: 0 <= i < |merged| ==> exists j :: 0 <= j < |seen| && merged[i].end == seen[j].end
  }

  /** Some span reaches across position k, from before it to behind it. */
  predicate Crosses(spans: seq<Span>, k: nat) {
    exists i :: 0 <= i < |spans| && spans[i].start < k < spans[i].end
  }

  /** Spans that only touch stay apart: a merged span goes on across k only where some span does. */
  ghost predicate CrossedOnly(merged: seq<Span>, seen: seq<Span>) {
    forall k: nat :: Crosses(merged, k) ==> Crosses(seen, k)
  }

  /** Merged so far: the last merged span starts no later than the last one seen. */
  predicate MergeShape(merged: seq<Span>, seen: seq<Span>) {
    && Proper(merged) && Disjoint(merged)
    && (seen == [] ==> merged == [])
    && (seen != [] ==> merged != [] && merged[|merged| - 1].start <= seen[|seen| - 1].start)
  }

  /** The merge loop of piiSpans over sorted spans. */
  method Merge(spans: seq<Span>) returns (merged: seq<Span>)
    requires Proper(spans) && SortedSpans(spans)
    ensures Proper(merged) && Disjoint(merged)
    ensures SameCover(merged, spans)
    ensures AllInside(merged, spans) && CrossedOnly(merged, spans)
    ensures EndsAmong(merged, spans)
  {
    hide Proper, Disjoint, SortedSpans, Covered, Inside, SameCover, AllInside, CrossedOnly, EndsAmong, MergeShape;
    merged := [];
    NothingMerged();
    for i := 0 to |spans|
      invariant MergeShape(merged, spans[..i]) && SameCover(merged, spans[..i])
      invariant AllInside(merged, spans[..i]) && EndsAmong(merged, spans[..i]) && CrossedOnly(merged, spans[..i])
    {
      var span := spans[i];
      MergeStep(merged, spans, i);
      if |merged| > 0 && span.start < merged[|merged| - 1].end {
        var last := merged[|merged| - 1];
        merged := merged[|merged| - 1 := Span(last.start, Max(last.end, span.end))];
      } else {
        merged := merged + [span];
      }
    }
    assert spans[..|spans|] == spans;
    ShapeOf(merged, spans);
  }

  lemma NothingMerged()
    ensures MergeShape([], []) && SameCover([], []) && AllInside([], []) && EndsAmong([], []) && CrossedOnly([], [])
  {
  }

  lemma ShapeOf(merged: seq<Span>, seen: seq<Span>)
    requires MergeShape(merged, seen)
    ensures Proper(merged) && Disjoint(merged)
  {
  }

  lemma MergeStep(merged: seq<Span>, spans: seq<Span>, i: nat)
    requires i < |spans| && Proper(spans) && SortedSpans(spans)
    requires MergeShape(merged, spans[..i]) && SameCover(merged, spans[..i])
    requires AllInside(merged, spans[..i]) && EndsAmong(merged, spans[..i]) && CrossedOnly(merged, spans[..i])
    ensures var next := MergeOne(merged, spans[i]);
            && MergeShape(next, spans[..i + 1]) && SameCover(next, spans[..i + 1])
            && AllInside(next, spans[..i + 1]) && EndsAmong(next, spans[..i + 1]) && CrossedOnly(next, spans[..i + 1])
  {
    hide Proper, SortedSpans, Covered, Inside, SameCover, AllInside, CrossedOnly, EndsAmong, MergeShape, MergeOne, Extends;
    var seen, span := spans[..i], spans[i];
    assert spans[..i + 1] == seen + [span];
    NextStartsLater(merged, spans, i);
    ShapeStep(merged, seen, span);
    EndsStep(merged, seen, span);
    OneMore(merged, span);
    CoverStep(merged, seen, span);
    InsideStep(merged, seen, span);
    CrossStep(merged, seen, span);
  }

  lemma NextStartsLater(merged: seq<Span>, spans: seq<Span>, i: nat)
    requires i < |spans| && Proper(spans) && SortedSpans(spans) && MergeShape(merged, spans[..i])
    ensures spans[i].start < spans[i].end
    ensures spans[..i] != [] ==> Before(spans[..i][|spans[..i]| - 1], spans[i])
    ensures merged != [] ==> merged[|merged| - 1].start <= spans[i].start
  {
  }

  lemma ShapeStep(merged: seq<Span>, seen: seq<Span>, span: Span)
    requires MergeShape(merged, seen) && span.start < span.end
    requires seen != [] ==> Before(seen[|seen| - 1], span)
    ensures MergeShape(MergeOne(merged, span), seen + [span])
  {
  }

  lemma EndsStep(merged: seq<Span>, seen: seq<Span>, span: Span)
    requires EndsAmong(merged, seen)
    ensures EndsAmong(MergeOne(merged, span), seen + [span])
  {
    var next, all := MergeOne(merged, span), seen + [span];
    assert all[|seen|] == span;
    forall i | 0 <= i < |next|
      ensures exists j :: 0 <= j < |all| && next[i].end == all[j].end
    {
      if i < |merged| {
        var j :| 0 <= j < |seen| && merged[i].end == seen[j].end;
        assert all[j] == seen[j];
        assert next[i].end == all[j].end || next[i].end == all[|seen|].end;
      } else {
        assert next[i].end == all[|seen|].end;
      }
    }
  }

  lemma CrossStep(merged: seq<Span>, seen: seq<Span>, span: Span)
    requires CrossedOnly(merged, seen)
    ensures CrossedOnly(MergeOne(merged, span), seen + [span])
  {
    var next, all := MergeOne(merged, span), seen + [span];
    assert all[|seen|] == span;
    forall k: nat | Crosses(next, k)
      ensures Crosses(all, k)
    {
      var i :| 0 <= i < |next| && next[i].start < k < next[i].end;
      if i < |merged| && merged[i].start < k < merged[i].end {
        assert Crosses(merged, k);
        var j :| 0 <= j < |seen| && seen[j].start < k < seen[j].end;
        assert all[j] == seen[j];
      } else {
        assert all[|seen|].start < k < all[|seen|].end;
      }
    }
  }

  /** What one more span does: it is covered, and nothing covered is lost. */
  ghost predicate Extends(was: seq<Span>, now: seq<Span>, span: Span) {
    && (forall k: nat :: Covered(now, k) <==> Covered(was, k) || span.start <= k < span.end)
    && (forall a: nat, b: nat :: Inside(was, a, b) ==> Inside(now, a, b))
    && Inside(now, span.start, span.end)
  }

  lemma OneMore(merged: seq<Span>, span: Span)
    requires merged != [] ==> merged[|merged| - 1].start <= span.start
    ensures Extends(merged, MergeOne(merged, span), span)
  {
    if |merged| > 0 && span.start < merged[|merged| - 1].end {
      WidenKeeps(merged, MergeOne(merged, span), span);
    } else {
      AppendKeeps(merged, span);
    }
  }

  lemma CoverStep(merged: seq<Span>, seen: seq<Span>, span: Span)
    requires SameCover(merged, seen) && Extends(merged, MergeOne(merged, span), span)
    ensures SameCover(MergeOne(merged, span), seen + [span])
  {
    AppendKeeps(seen, span);
  }

  lemma InsideStep(merged: seq<Span>, seen: seq<Span>, span: Span)
    requires AllInside(merged, seen) && Extends(merged, MergeOne(merged, span), span)
    ensures AllInside(MergeOne(merged, span), seen + [span])
  {
    var all := seen + [span];
    forall i | 0 <= i < |all|
      ensures Inside(MergeOne(merged, span), all[i].start, all[i].end)
    {
      assert i < |seen| ==> all[i] == seen[i] && Inside(merged, seen[i].start, seen[i].end);
    }
  }

  /** Widening the last merged span covers what it covered and the new span. */
  lemma WidenKeeps(was: seq<Span>, now: seq<Span>, span: Span)
    requires was != [] && |now| == |was|
    requires var m := |was| - 1; was[m].start <= span.start < was[m].end
                                 && now == was[m := Span(was[m].start, Max(was[m].end, span.end))]
    ensures forall k: nat :: Covered(now, k) <==> Covered(was, k) || span.start <= k < span.end
    ensures forall a: nat, b: nat :: Inside(was, a, b) ==> Inside(now, a, b)
    ensures Inside(now, span.start, span.end)
  {
    var m := |was| - 1;
    forall k: nat
      ensures Covered(now, k) <==> Covered(was, k) || span.start <= k < span.end
    {
      if Covered(was, k) {
        var i :| 0 <= i < |was| && was[i].start <= k < was[i].end;
        assert now[i].start <= k < now[i].end;
      }
      if span.start <= k < span.end {
        assert now[m].start <= k < now[m].end;
      }
      if Covered(now, k) {
        var i :| 0 <= i < |now| && now[i].start <= k < now[i].end;
        assert i < m ==> was[i] == now[i];
        assert was[m].start <= k < was[m].end || span.start <= k < span.end || i < m;
      }
    }
    forall a: nat, b: nat | Inside(was, a, b)
      ensures Inside(now, a, b)
    {
      var i :| 0 <= i < |was| && was[i].start <= a && b <= was[i].end;
      assert now[i].start <= a && b <= now[i].end;
    }
    assert now[m].start <= span.start && span.end <= now[m].end;
  }

  lemma AppendKeeps(was: seq<Span>, span: Span)
    ensures forall k: nat :: Covered(was + [span], k) <==> Covered(was, k) || span.start <= k < span.end
    ensures forall a: nat, b: nat :: Inside(was, a, b) ==> Inside(was + [span], a, b)
    ensures Inside(was + [span], span.start, span.end)
  {
    var now := was + [span];
    assert now[|was|] == span;
    forall k: nat
      ensures Covered(now, k) <==> Covered(was, k) || span.start <= k < span.end
    {
      if Covered(was, k) {
        var i :| 0 <= i < |was| && was[i].start <= k < was[i].end;
        assert now[i] == was[i];
      }
      if Covered(now, k) {
        var i :| 0 <= i < |now| && now[i].start <= k < now[i].end;
        assert i < |was| ==> was[i] == now[i];
      }
    }
    forall a: nat, b: nat | Inside(was, a, b)
      ensures Inside(now, a, b)
    {
      InsideMore(was, [span], a, b);
    }
  }

  /**
   * piiSpans: addresses together with any other candidate spans, sorted and merged. The patterns for phones and
   * cards are matched by a regular-expression engine; their spans are arbitrary here.
   */
  method PiiSpans(word: WordRunes, s: bytes, patterns: seq<Span>) returns (merged: seq<Span>)
    requires Proper(patterns) && forall i :: 0 <= i < |patterns| ==> patterns[i].end <= |s|
    ensures Proper(merged) && Disjoint(merged) && forall i :: 0 <= i < |merged| ==> merged[i].end <= |s|
    ensures forall start: nat, at: nat, end: nat :: IsEmail(word, s, start, at, end) ==> Inside(merged, start, end)
    ensures AllInside(merged, patterns)
    ensures forall k: nat :: Covered(merged, k) ==> Covered(patterns, k) || InEmail(word, s, k)
    ensures forall k: nat :: Crosses(merged, k) ==> Crosses(patterns, k) || AcrossEmail(word, s, k)
  {
    var emails := EmailSpans(word, s);
    var sorted := Sort(emails + patterns);
    SortKeeps(emails + patterns);
    SameSpans(emails + patterns, sorted);
    merged := Merge(sorted);
    hide IsEmail, Covered, Crosses, Inside, Sort, SortedSpans, Disjoint, InEmail, AcrossEmail;
    PartsInside(emails, patterns, sorted, merged);
    EmailsInside(word, s, emails, merged);
    CoverOnly(word, s, emails, patterns, sorted, merged);
    EndsWithin(emails + patterns, sorted, merged, |s|);
  }

  ghost predicate InEmail(word: WordRunes, s: bytes, k: nat) {
    exists start: nat, at: nat, end: nat :: IsEmail(word, s, start, at, end) && start <= k < end
  }

  ghost predicate AcrossEmail(word: WordRunes, s: bytes, k: nat) {
    exists start: nat, at: nat, end: nat :: IsEmail(word, s, start, at, end) && start < k < end
  }

  lemma PartsInside(emails: seq<Span>, patterns: seq<Span>, sorted: seq<Span>, merged: seq<Span>)
    requires multiset(sorted) == multiset(emails + patterns) && AllInside(merged, sorted)
    ensures AllInside(merged, emails) && AllInside(merged, patterns)
  {
    var all := emails + patterns;
    SameSpans(all, sorted);
    forall x | x in all
      ensures Inside(merged, x.start, x.end)
    {
      assert x in sorted;
      var j :| 0 <= j < |sorted| && sorted[j] == x;
    }
    assert forall i :: 0 <= i < |emails| ==> emails[i] in all;
    assert forall i :: 0 <= i < |patterns| ==> patterns[i] in all;
  }

  lemma EmailsInside(word: WordRunes, s: bytes, emails: seq<Span>, merged: seq<Span>)
    requires forall start: nat, at: nat, end: nat :: IsEmail(word, s, start, at, end) ==> Inside(emails, start, end)
    requires AllInside(merged, emails)
    ensures forall start: nat, at: nat, end: nat :: IsEmail(word, s, start, at, end) ==> Inside(merged, start, end)
  {
    forall start: nat, at: nat, end: nat | IsEmail(word, s, start, at, end)
      ensures Inside(merged, start, end)
    {
      assert Inside(emails, start, end);
      var i :| 0 <= i < |emails| && emails[i].start <= start && end <= emails[i].end;
      Wider(merged, emails[i], start, end);
    }
  }

  lemma CoverOnly(word: WordRunes, s: bytes, emails: seq<Span>, patterns: seq<Span>, sorted: seq<Span>, merged: seq<Span>)
    requires multiset(sorted) == multiset(emails + patterns) && SameCover(merged, sorted) && CrossedOnly(merged, sorted)
    requires forall i :: 0 <= i < |emails| ==> EmailSpan(word, s, emails[i])
    ensures forall k: nat :: Covered(merged, k) ==> Covered(patterns, k) || InEmail(word, s, k)
    ensures forall k: nat :: Crosses(merged, k) ==> Crosses(patterns, k) || AcrossEmail(word, s, k)
  {
    hide Covered, Crosses, InEmail, AcrossEmail, EmailSpan;
    forall k: nat
      ensures Covered(merged, k) ==> Covered(patterns, k) || InEmail(word, s, k)
      ensures Crosses(merged, k) ==> Crosses(patterns, k) || AcrossEmail(word, s, k)
    {
      if Covered(sorted, k) {
        CoveredSource(word, s, emails, patterns, sorted, k);
      }
      if Crosses(sorted, k) {
        CrossedSource(word, s, emails, patterns, sorted, k);
      }
    }
  }

  lemma EndsWithin(all: seq<Span>, sorted: seq<Span>, merged: seq<Span>, limit: nat)
    requires multiset(sorted) == multiset(all) && EndsAmong(merged, sorted)
    requires forall i :: 0 <= i < |all| ==> all[i].end <= limit
    ensures forall i :: 0 <= i < |merged| ==> merged[i].end <= limit
  {
    SameSpans(all, sorted);
    forall i | 0 <= i < |merged|
      ensures merged[i].end <= limit
    {
      var j :| 0 <= j < |sorted| && merged[i].end == sorted[j].end;
      assert sorted[j] in all;
    }
  }

  lemma Wider(merged: seq<Span>, outer: Span, start: nat, end: nat)
    requires Inside(merged, outer.start, outer.end) && outer.start <= start && end <= outer.end
    ensures Inside(merged, start, end)
  {
    var i :| 0 <= i < |merged| && merged[i].start <= outer.start && outer.end <= merged[i].end;
    assert merged[i].start <= start && end <= merged[i].end;
  }

  lemma SameSpans(all: seq<Span>, sorted: seq<Span>)
    requires multiset(sorted) == multiset(all)
    ensures forall x :: x in all <==> x in sorted
    ensures Proper(all) ==> Proper(sorted)
  {
    forall x
      ensures x in all <==> x in sorted
    {
      assert x in all <==> x in multiset(all);
      assert x in sorted <==> x in multiset(sorted);
    }
    if Proper(all) {
      forall i | 0 <= i < |sorted|
        ensures sorted[i].start < sorted[i].end
      {
        assert sorted[i] in all;
      }
    }
  }

  lemma CoveredSource(word: WordRunes, s: bytes, emails: seq<Span>, patterns: seq<Span>, sorted: seq<Span>, k: nat)
    requires multiset(sorted) == multiset(emails + patterns) && Covered(sorted, k)
    requires forall i :: 0 <= i < |emails| ==> EmailSpan(word, s, emails[i])
    ensures Covered(patterns, k) || InEmail(word, s, k)
  {
    var j :| 0 <= j < |sorted| && sorted[j].start <= k < sorted[j].end;
    var x := SourceOf(word, s, emails, patterns, sorted, j);
    if x.Some? {
      assert IsEmail(word, s, sorted[j].start, x.value, sorted[j].end);
    }
  }

  lemma CrossedSource(word: WordRunes, s: bytes, emails: seq<Span>, patterns: seq<Span>, sorted: seq<Span>, k: nat)
    requires multiset(sorted) == multiset(emails + patterns) && Crosses(sorted, k)
    requires forall i :: 0 <= i < |emails| ==> EmailSpan(word, s, emails[i])
    ensures Crosses(patterns, k) || AcrossEmail(word, s, k)
  {
    var j :| 0 <= j < |sorted| && sorted[j].start < k < sorted[j].end;
    var x := SourceOf(word, s, emails, patterns, sorted, j);
    if x.Some? {
      assert IsEmail(word, s, sorted[j].start, x.value, sorted[j].end);
    }
  }

  /** Where a span of the union comes from: an address with its at sign, or a pattern candidate. */
  lemma SourceOf(word: WordRunes, s: bytes, emails: seq<Span>, patterns: seq<Span>, sorted: seq<Span>, j: nat) returns (at: Option<nat>)
    requires multiset(sorted) == multiset(emails + patterns) && j < |sorted|
    requires forall i :: 0 <= i < |emails| ==> EmailSpan(word, s, emails[i])
    ensures at.Some? ==> IsEmail(word, s, sorted[j].start, at.value, sorted[j].end)
    ensures at.None? ==> sorted[j] in patterns
  {
    hide IsEmail;
    SameSpans(emails + patterns, sorted);
    assert sorted[j] in emails + patterns;
    if sorted[j] in emails {
      var i :| 0 <= i < |emails| && emails[i] == sorted[j];
      var a: nat :| IsEmail(word, s, emails[i].start, a, emails[i].end);
      return Some(a);
    }
    return None;
  }

  /** The bytes that make up an address. */
  lemma EmailAlphabet(b: byte)
    ensures AsciiLetter(b) <==> Between(b, 'a', 'z') || Between(b, 'A', 'Z')
    ensures LocalByte(b) <==> AsciiLetter(b) || Between(b, '0', '9') || b in Ascii("._%+-")
    ensures DomainByte(b) <==> AsciiLetter(b) || Between(b, '0', '9') || b in Ascii(".-")
    ensures Ascii("@.") == [AT, DOT]
  {
    var local, domain := Ascii("._%+-"), Ascii(".-");
    assert local == [46, 95, 37, 43, 45] && domain == [46, 45];
  }

  /** A domain of three bytes has no room for a top level behind its dot. */
  lemma NoRoom(s: bytes, start: nat, dot: int, end: nat)
    requires |s| <= start + 3
    ensures !TopLevelAt(s, start, dot, end)
  {
  }

  /** The shortest address: a top level of two letters counts, one of one letter does not. */
  lemma ShortestAddress(word: WordRunes)
    ensures IsEmail(word, Ascii("a@b.co"), 0, 1, 6)
    ensures forall end: nat :: !IsEmail(word, Ascii("a@b.c"), 0, 1, end)
  {
    var long, short := Ascii("a@b.co"), Ascii("a@b.c");
    assert long == [97, AT, 98, DOT, 99, 111] && short == [97, AT, 98, DOT, 99];
    assert TopLevelAt(long, 2, 3, 6);
    hide TopLevelAt;
    forall dot: int, end: nat
      ensures !TopLevelAt(short, 2, dot, end)
    {
      NoRoom(short, 2, dot, end);
    }
  }
}
