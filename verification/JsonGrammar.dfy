/** The byte-level grammar of JSON texts, RFC 8259 sections 2 to 7, as concrete syntax trees that keep their whitespace. */
module JsonGrammar {
  import opened Wrappers
  import opened Utf8
  import opened Framing

  const COMMA: byte := 44
  const COLON: byte := 58
  const MINUS: byte := 45
  const PLUS: byte := 43
  const DOT: byte := 46
  const ZERO: byte := 48
  const SPACE: byte := 32

  const TRUE: bytes := [116, 114, 117, 101]
  const FALSE: bytes := [102, 97, 108, 115, 101]
  const NULL: bytes := [110, 117, 108, 108]

  datatype Kind = ArrayKind | ObjectKind

  datatype Exponent = Exponent(mark: byte, sign: Option<byte>, digits: bytes)

  /** A value of section 3; a container is either empty or holds comma-separated entries. */
  datatype Value =
    | Literal(word: bytes)
    | Number(negative: bool, whole: bytes, fraction: Option<bytes>, exponent: Option<Exponent>)
    | String(body: bytes)
    | Empty(kind: Kind, gap: bytes)
    | Container(kind: Kind, entries: Entries)

  datatype Entries = Last(entry: Entry) | More(entry: Entry, rest: Entries)

  /** An element, or a member when it has a label; `before` and `after` are the whitespace around it. */
  datatype Entry = Entry(before: bytes, tag: Option<Label>, value: Value, after: bytes)

  /** A member's name, with the whitespace on both sides of its colon. */
  datatype Label = Label(name: bytes, gap: bytes, lead: bytes)

  // ----- the terminals

  predicate IsDigit(b: byte) { 48 <= b <= 57 }

  predicate IsHex(b: byte) { IsDigit(b) || 65 <= b <= 70 || 97 <= b <= 102 }

  predicate AllSpace(s: bytes) { forall i :: 0 <= i < |s| ==> IsSpace(s[i]) }

  predicate AllDigits(s: bytes) { s != [] && forall i :: 0 <= i < |s| ==> IsDigit(s[i]) }

  predicate IsWhole(s: bytes) { s == [ZERO] || (AllDigits(s) && s[0] != ZERO) }

  /** The letters that may follow a backslash, other than u. */
  predicate IsSimpleEscape(b: byte) { b == 34 || b == 92 || b == 47 || b == 98 || b == 102 || b == 110 || b == 114 || b == 116 }

  predicate IsUnicodeEscape(s: bytes) {
    |s| >= 6 && s[0] == BACKSLASH && s[1] == 117 && IsHex(s[2]) && IsHex(s[3]) && IsHex(s[4]) && IsHex(s[5])
  }

  /** The characters between a string's quotes (section 7), byte by byte; JsonTexts says when they are UTF-8. */
  predicate IsBody(s: bytes) {
    if s == [] then true
    else if s[0] == QUOTE || s[0] < SPACE then false
    else if s[0] != BACKSLASH then IsBody(s[1..])
    else if |s| >= 2 && IsSimpleEscape(s[1]) then IsBody(s[2..])
    else IsUnicodeEscape(s) && IsBody(s[6..])
  }

  predicate IsExponent(e: Exponent) {
    && (e.mark == 101 || e.mark == 69)
    && (e.sign.Some? ==> e.sign.value == PLUS || e.sign.value == MINUS)
    && AllDigits(e.digits)
  }

  /** The terminals, spelled out. */
  lemma JsonAlphabet(b: byte)
    ensures IsDigit(b) <==> Between(b, '0', '9')
    ensures IsHex(b) <==> Between(b, '0', '9') || Between(b, 'A', 'F') || Between(b, 'a', 'f')
    ensures IsSimpleEscape(b) <==> b in Ascii("\"\\/bfnrt")
    ensures IsSpace(b) <==> b in Ascii(" \t\n\r")
    ensures IsExponent(Exponent(b, None, [ZERO])) <==> b in Ascii("eE")
    ensures IsUnicodeEscape([BACKSLASH, b, ZERO, ZERO, ZERO, ZERO]) <==> b == 'u' as int
  {
    var escapes, spaces, marks := Ascii("\"\\/bfnrt"), Ascii(" \t\n\r"), Ascii("eE");
    assert escapes == [34, 92, 47, 98, 102, 110, 114, 116] && spaces == [32, 9, 10, 13] && marks == [101, 69];
  }

  lemma JsonWords()
    ensures TRUE == Ascii("true") && FALSE == Ascii("false") && NULL == Ascii("null")
    ensures [COMMA, COLON, MINUS, PLUS, DOT, ZERO, SPACE, NEWLINE] == Ascii(",:-+.0 \n")
    ensures [QUOTE, BACKSLASH, LEFT_BRACE, RIGHT_BRACE, LEFT_BRACKET, RIGHT_BRACKET] == Ascii("\"\\{}[]")
  {
  }

  // ----- the trees that stand for texts

  predicate IsValue(v: Value) {
    match v
    case Literal(w) => w == TRUE || w == FALSE || w == NULL
    case Number(_, whole, fraction, exponent) =>
      && IsWhole(whole)
      && (fraction.Some? ==> AllDigits(fraction.value))
      && (exponent.Some? ==> IsExponent(exponent.value))
    case String(body) => IsBody(body)
    case Empty(_, gap) => AllSpace(gap)
    case Container(kind, entries) => IsEntries(entries, kind)
  }

  predicate IsEntries(es: Entries, kind: Kind) {
    match es
    case Last(e) => IsEntry(e, kind)
    case More(e, rest) => IsEntry(e, kind) && IsEntries(rest, kind)
  }

  predicate IsEntry(e: Entry, kind: Kind) {
    && AllSpace(e.before)
    && AllSpace(e.after)
    && (e.tag.Some? <==> kind == ObjectKind)
    && (e.tag.Some? ==> IsBody(e.tag.value.name) && AllSpace(e.tag.value.gap) && AllSpace(e.tag.value.lead))
    && IsValue(e.value)
  }

  // ----- the texts they stand for

  function Opening(kind: Kind): byte { if kind == ObjectKind then LEFT_BRACE else LEFT_BRACKET }

  function Closing(kind: Kind): byte { if kind == ObjectKind then RIGHT_BRACE else RIGHT_BRACKET }

  function Show(v: Value): bytes {
    match v
    case Literal(w) => w
    case Number(negative, whole, fraction, exponent) =>
      (if negative then [MINUS] else []) + whole + ShowFraction(fraction) + ShowExponent(exponent)
    case String(body) => Quoted(body)
    case Empty(kind, gap) => [Opening(kind)] + gap + [Closing(kind)]
    case Container(kind, entries) => [Opening(kind)] + ShowEntries(entries) + [Closing(kind)]
  }

  function ShowFraction(f: Option<bytes>): bytes {
    if f.Some? then [DOT] + f.value else []
  }

  function ShowExponent(e: Option<Exponent>): bytes {
    if e.Some? then [e.value.mark] + (if e.value.sign.Some? then [e.value.sign.value] else []) + e.value.digits else []
  }

  function Quoted(body: bytes): bytes { [QUOTE] + body + [QUOTE] }

  function ShowEntries(es: Entries): bytes {
    match es
    case Last(e) => ShowEntry(e)
    case More(e, rest) => ShowEntry(e) + [COMMA] + ShowEntries(rest)
  }

  function ShowEntry(e: Entry): bytes {
    e.before + ShowLabel(e.tag) + Show(e.value) + e.after
  }

  function ShowLabel(l: Option<Label>): bytes {
    if l.Some? then Quoted(l.value.name) + Separator(l.value) else []
  }

  function Separator(l: Label): bytes { l.gap + [COLON] + l.lead }

  predicate IsContainer(v: Value) { v.Empty? || v.Container? }
}

/** The framing counters find exactly the ends of JSON containers. */
module JsonFraming {
  import opened Wrappers
  import opened Utf8
  import opened Framing
  import opened JsonGrammar

  /** Inside some container, outside any string. */
  predicate Inside(f: Frame) {
    f.started && !f.inString && !f.escape && !f.complete && !f.invalid && f.objects + f.arrays > 0
  }

  /** Bytes the counters do not react to outside strings. */
  predicate Neutral(b: byte) {
    b != QUOTE && b != LEFT_BRACE && b != RIGHT_BRACE && b != LEFT_BRACKET && b != RIGHT_BRACKET
  }

  predicate AllNeutral(s: bytes) { forall i :: 0 <= i < |s| ==> Neutral(s[i]) }

  lemma {:induction false} ScanNeutral(k: nat, f: Frame, s: bytes, max: nat)
    requires Inside(f) && AllNeutral(s) && k + |s| < max
    ensures Scan(Going(k, f), s, max) == Going(k + |s|, f)
    decreases |s|
  {
    if s != [] {
      ScanNeutral(k + 1, f, s[1..], max);
    }
  }

  /** What follows the two bytes of an escape is again a string body. */
  lemma AfterEscape(s: bytes)
    requires IsBody(s) && s != [] && s[0] == BACKSLASH
    ensures |s| >= 2 && IsBody(s[2..])
  {
    if !IsSimpleEscape(s[1]) {
      assert s[2..] == s[2..6] + s[6..];
      PlainThenBody(s[2..6], s[6..]);
    }
  }

  lemma {:induction false} PlainThenBody(hex: bytes, s: bytes)
    requires IsBody(s) && forall i :: 0 <= i < |hex| ==> IsHex(hex[i])
    ensures IsBody(hex + s)
  {
    if hex == [] {
      assert hex + s == s;
    } else {
      PlainThenBody(hex[1..], s);
      assert (hex + s)[1..] == hex[1..] + s;
    }
  }

  lemma {:induction false} ScanBody(k: nat, f: Frame, s: bytes, max: nat)
    requires f.started && f.inString && !f.escape && !f.complete && !f.invalid
    requires IsBody(s) && k + |s| < max
    ensures Scan(Going(k, f), s, max) == Going(k + |s|, f)
    decreases |s|
  {
    if s != [] {
      if s[0] != BACKSLASH {
        ScanBody(k + 1, f, s[1..], max);
      } else {
        AfterEscape(s);
        var g := f.(escape := true);
        assert Step(Going(k, f), s[0], max) == Going(k + 1, g);
        assert Step(Going(k + 1, g), s[1], max) == Going(k + 2, f);
        assert s[1..][1..] == s[2..];
        ScanBody(k + 2, f, s[2..], max);
      }
    }
  }

  lemma ScanOne(p: Progress, b: byte, max: nat)
    ensures Scan(p, [b], max) == Step(p, b, max)
  {
    assert [b][1..] == [];
  }

  lemma ScanQuoted(k: nat, f: Frame, body: bytes, max: nat)
    requires Inside(f) && IsBody(body) && k + |body| + 2 < max
    ensures Scan(Going(k, f), Quoted(body), max) == Going(k + |Quoted(body)|, f)
  {
    var g := f.(inString := true);
    ScanAppend(Going(k, f), [QUOTE] + body, [QUOTE], max);
    ScanAppend(Going(k, f), [QUOTE], body, max);
    ScanOne(Going(k, f), QUOTE, max);
    ScanBody(k + 1, g, body, max);
    ScanOne(Going(k + 1 + |body|, g), QUOTE, max);
  }

  /** Opening and closing a container around bytes that leave the counters alone. */
  lemma ScanBracketed(k: nat, f: Frame, kind: Kind, inner: bytes, max: nat)
    requires Inside(f) && k + |inner| + 2 < max
    requires Scan(Going(k + 1, Entered(f, kind)), inner, max) == Going(k + 1 + |inner|, Entered(f, kind))
    ensures Scan(Going(k, f), [Opening(kind)] + inner + [Closing(kind)], max) == Going(k + |inner| + 2, f)
  {
    ScanAppend(Going(k, f), [Opening(kind)] + inner, [Closing(kind)], max);
    ScanAppend(Going(k, f), [Opening(kind)], inner, max);
    ScanOne(Going(k, f), Opening(kind), max);
    ScanOne(Going(k + 1 + |inner|, Entered(f, kind)), Closing(kind), max);
  }

  function Entered(f: Frame, kind: Kind): Frame {
    if kind == ObjectKind then f.(objects := f.objects + 1) else f.(arrays := f.arrays + 1)
  }

  /** Scanning s moves the offset and nothing else. */
  ghost predicate Passes(k: nat, f: Frame, s: bytes, max: nat) {
    Scan(Going(k, f), s, max) == Going(k + |s|, f)
  }

  lemma PassesBoth(k: nat, f: Frame, a: bytes, b: bytes, max: nat)
    requires Passes(k, f, a, max) && Passes(k + |a|, f, b, max)
    ensures Passes(k, f, a + b, max)
  {
    ScanAppend(Going(k, f), a, b, max);
  }

  lemma ScalarIsNeutral(v: Value)
    requires IsValue(v) && (v.Literal? || v.Number?)
    ensures AllNeutral(Show(v))
  {
    if v.Number? {
      var sign: bytes := if v.negative then [MINUS] else [];
      NeutralBoth(sign, v.whole);
      NeutralBoth(sign + v.whole, ShowFraction(v.fraction));
      ExponentIsNeutral(v.exponent);
      NeutralBoth(sign + v.whole + ShowFraction(v.fraction), ShowExponent(v.exponent));
    }
  }

  lemma NeutralBoth(a: bytes, b: bytes)
    ensures AllNeutral(a) && AllNeutral(b) ==> AllNeutral(a + b)
  {
  }

  lemma ExponentIsNeutral(e: Option<Exponent>)
    requires e.Some? ==> IsExponent(e.value)
    ensures AllNeutral(ShowExponent(e))
  {
    if e.Some? {
      var sign: bytes := if e.value.sign.Some? then [e.value.sign.value] else [];
      NeutralBoth([e.value.mark], sign);
      NeutralBoth([e.value.mark] + sign, e.value.digits);
    }
  }

  /** A whole value inside a container leaves the counters as they were. */
  lemma {:induction false} ScanValue(k: nat, f: Frame, v: Value, max: nat)
    requires Inside(f) && IsValue(v) && k + |Show(v)| < max
    ensures Passes(k, f, Show(v), max)
    decreases v
  {
    match v
    case Literal(_) =>
      ScalarIsNeutral(v);
      ScanNeutral(k, f, Show(v), max);
    case Number(_, _, _, _) =>
      ScalarIsNeutral(v);
      ScanNeutral(k, f, Show(v), max);
    case String(body) => ScanQuoted(k, f, body, max);
    case Empty(kind, gap) =>
      ScanNeutral(k + 1, Entered(f, kind), gap, max);
      ScanBracketed(k, f, kind, gap, max);
    case Container(kind, entries) =>
      ScanEntries(k + 1, Entered(f, kind), entries, kind, max);
      ScanBracketed(k, f, kind, ShowEntries(entries), max);
  }

  lemma {:induction false} ScanEntries(k: nat, f: Frame, es: Entries, kind: Kind, max: nat)
    requires Inside(f) && IsEntries(es, kind) && k + |ShowEntries(es)| < max
    ensures Passes(k, f, ShowEntries(es), max)
    decreases es
  {
    ScanEntry(k, f, es.entry, kind, max);
    if es.More? {
      var e := ShowEntry(es.entry);
      ScanNeutral(k + |e|, f, [COMMA], max);
      PassesBoth(k, f, e, [COMMA], max);
      ScanEntries(k + |e| + 1, f, es.rest, kind, max);
      PassesBoth(k, f, e + [COMMA], ShowEntries(es.rest), max);
    }
  }

  lemma {:induction false} ScanEntry(k: nat, f: Frame, e: Entry, kind: Kind, max: nat)
    requires Inside(f) && IsEntry(e, kind) && k + |ShowEntry(e)| < max
    ensures Passes(k, f, ShowEntry(e), max)
    decreases e
  {
    var a, b, c := e.before, ShowLabel(e.tag), Show(e.value);
    ScanNeutral(k, f, a, max);
    ScanLabel(k + |a|, f, e.tag, max);
    PassesBoth(k, f, a, b, max);
    ScanValue(k + |a| + |b|, f, e.value, max);
    PassesBoth(k, f, a + b, c, max);
    ScanNeutral(k + |a| + |b| + |c|, f, e.after, max);
    PassesBoth(k, f, a + b + c, e.after, max);
  }

  lemma ScanLabel(k: nat, f: Frame, l: Option<Label>, max: nat)
    requires Inside(f) && k + |ShowLabel(l)| < max
    requires l.Some? ==> IsBody(l.value.name) && AllSpace(l.value.gap) && AllSpace(l.value.lead)
    ensures Passes(k, f, ShowLabel(l), max)
  {
    if l.Some? {
      var q, tail := Quoted(l.value.name), Separator(l.value);
      ScanQuoted(k, f, l.value.name, max);
      SeparatorIsNeutral(l.value);
      ScanNeutral(k + |q|, f, tail, max);
      PassesBoth(k, f, q, tail, max);
    }
  }

  lemma SeparatorIsNeutral(l: Label)
    requires AllSpace(l.gap) && AllSpace(l.lead)
    ensures AllNeutral(Separator(l))
  {
    NeutralBoth(l.gap, [COLON]);
    NeutralBoth(l.gap + [COLON], l.lead);
  }

  /** What stands between the brackets of a container. */
  function Inner(v: Value): bytes
    requires IsContainer(v)
  {
    if v.Empty? then v.gap else ShowEntries(v.entries)
  }

  /** The state right after a unit's opening bracket. */
  function Opened(kind: Kind): Frame { Entered(FRESH.(started := true), kind) }

  const CLOSED := FRESH.(started := true, complete := true)

  lemma {:induction false} ScanLeading(k: nat, s: bytes, max: nat)
    requires AllSpace(s) && k + |s| < max
    ensures Scan(Going(k, FRESH), s, max) == Going(k + |s|, FRESH)
    decreases |s|
  {
    if s != [] {
      ScanLeading(k + 1, s[1..], max);
    }
  }

  lemma {:induction false} ScanTrailing(k: nat, s: bytes, max: nat)
    requires AllSpace(s) && k + |s| <= max
    ensures Scan(Going(k, CLOSED), s, max) == Going(k + |s|, CLOSED)
    decreases |s|
  {
    if s != [] {
      ScanTrailing(k + 1, s[1..], max);
    }
  }

  /** Up to its last byte a container is incomplete. */
  lemma ScanUnclosed(lead: bytes, v: Value, max: nat)
    requires AllSpace(lead) && IsValue(v) && IsContainer(v) && |lead| + |Show(v)| <= max
    ensures Scan(START, lead + [Opening(v.kind)] + Inner(v), max) == Going(|lead| + |Show(v)| - 1, Opened(v.kind))
  {
    var kind, inner := v.kind, Inner(v);
    var k := |lead| + 1;
    ScanAppend(START, lead + [Opening(kind)], inner, max);
    ScanAppend(START, lead, [Opening(kind)], max);
    ScanLeading(0, lead, max);
    ScanOne(Going(|lead|, FRESH), Opening(kind), max);
    if v.Empty? {
      ScanNeutral(k, Opened(kind), inner, max);
    } else {
      ScanEntries(k, Opened(kind), v.entries, kind, max);
    }
  }

  lemma ShowContainer(lead: bytes, v: Value)
    requires IsContainer(v)
    ensures lead + Show(v) == lead + [Opening(v.kind)] + Inner(v) + [Closing(v.kind)]
  {
    assert Show(v) == [Opening(v.kind)] + Inner(v) + [Closing(v.kind)];
  }

  /** A container with its leading whitespace is complete at its last byte. */
  lemma ScanClosed(lead: bytes, v: Value, max: nat)
    requires AllSpace(lead) && IsValue(v) && IsContainer(v) && |lead| + |Show(v)| <= max
    ensures Scan(START, lead + Show(v), max) == Going(|lead| + |Show(v)|, CLOSED)
  {
    var before := lead + [Opening(v.kind)] + Inner(v);
    ScanUnclosed(lead, v, max);
    ShowContainer(lead, v);
    ScanAppend(START, before, [Closing(v.kind)], max);
    ScanOne(Going(|lead| + |Show(v)| - 1, Opened(v.kind)), Closing(v.kind), max);
  }

  /** Once complete, scanning stays complete or ends. */
  lemma {:induction false} CompleteSticks(p: Progress, s: bytes, max: nat)
    requires p.Going? ==> p.frame.complete
    ensures var q := Scan(p, s, max); q.Going? ==> q.frame.complete
    decreases |s|
  {
    if s != [] {
      CompleteSticks(Step(p, s[0], max), s[1..], max);
    }
  }

  /**
   * Exact framing: while a container's text arrives, `complete` is false at every proper prefix and true at
   * the whole, whatever brackets, quotes and escapes its strings hold.
   */
  lemma CompleteExactlyAtEnd(lead: bytes, v: Value, i: nat, max: nat)
    requires AllSpace(lead) && IsValue(v) && IsContainer(v) && |lead| + |Show(v)| <= max
    requires i <= |lead| + |Show(v)|
    ensures var p := Scan(START, (lead + Show(v))[..i], max);
            p.Going? && p.offset == i && (p.frame.complete <==> i == |lead| + |Show(v)|)
  {
    var s := lead + Show(v);
    ScanClosed(lead, v, max);
    if i == |s| {
      assert s[..i] == s;
    } else {
      var before := lead + [Opening(v.kind)] + Inner(v);
      ScanUnclosed(lead, v, max);
      ShowContainer(lead, v);
      assert s[..i] == before[..i];
      assert before[..i] + before[i..] == before;
      ScanAppend(START, s[..i], before[i..], max);
      var p := Scan(START, s[..i], max);
      ScanSane(START, s[..i], max);
      ScanSane(p, before[i..], max);
      if p.frame.complete {
        CompleteSticks(p, before[i..], max);
      }
    }
  }

  /** One value with the whitespace a unit takes along. */
  datatype Framed = Framed(lead: bytes, value: Value, trail: bytes)

  predicate IsFramed(u: Framed) {
    AllSpace(u.lead) && AllSpace(u.trail) && IsValue(u.value) && IsContainer(u.value)
  }

  function ShowFramed(u: Framed): bytes { u.lead + Show(u.value) + u.trail }

  /** The unit is the value with all its trailing whitespace: it ends where the next value begins, and not before. */
  lemma BoundaryAfterTrailingSpace(u: Framed, next: bytes, max: nat)
    requires IsFramed(u) && |ShowFramed(u)| <= max
    ensures Scan(START, ShowFramed(u), max) == Going(|ShowFramed(u)|, CLOSED)
    ensures next != [] && !IsSpace(next[0]) ==> Scan(START, ShowFramed(u) + next, max) == Boundary(|ShowFramed(u)|)
  {
    var s := ShowFramed(u);
    ScanClosed(u.lead, u.value, max);
    ScanAppend(START, u.lead + Show(u.value), u.trail, max);
    ScanTrailing(|u.lead + Show(u.value)|, u.trail, max);
    if next != [] && !IsSpace(next[0]) {
      ScanAppend(START, s, next, max);
      ScanEnded(Boundary(|s|), next[1..], max);
    }
  }

  /** Whitespace past the limit fails the unit before its value is released. */
  lemma TrailingSpaceOverLimit(u: Framed, max: nat)
    requires IsFramed(u) && |u.lead| + |Show(u.value)| <= max < |ShowFramed(u)|
    ensures Scan(START, ShowFramed(u), max) == Failed(UnitLimit)
  {
    var body := u.lead + Show(u.value);
    var fits := max - |body|;
    ScanClosed(u.lead, u.value, max);
    assert ShowFramed(u) == (body + u.trail[..fits]) + u.trail[fits..];
    ScanAppend(START, body + u.trail[..fits], u.trail[fits..], max);
    ScanAppend(START, body, u.trail[..fits], max);
    ScanTrailing(|body|, u.trail[..fits], max);
    ScanEnded(Failed(UnitLimit), u.trail[fits..][1..], max);
  }
}
