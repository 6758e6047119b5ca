/** JSON texts as RFC 8259 has them, encoded in UTF-8 (section 8.1), against what the recogniser accepts byte by byte. */
module JsonTexts {
  import opened Wrappers
  import opened Sequences
  import opened Utf8
  import opened Framing
  import opened JsonGrammar
  import opened JsonScanner
  import opened JsonScannerTheorems

  // ----- strings

  /** Section 7: a string's characters are escapes and unescaped characters other than quotes, backslashes and controls. */
  ghost predicate IsChars(s: bytes) {
    if s == [] then true
    else if s[0] == BACKSLASH then
      if |s| >= 2 && IsSimpleEscape(s[1]) then IsChars(s[2..]) else IsUnicodeEscape(s) && IsChars(s[6..])
    else s[0] != QUOTE && s[0] >= SPACE && exists k :: StartsWithChar(s, k) && IsChars(s[k..])
  }

  /** The bytes the recogniser lets through are characters exactly when they are well-formed UTF-8. */
  lemma {:induction false} CharsIffValidBody(s: bytes)
    ensures IsChars(s) <==> IsBody(s) && ValidString(s)
    decreases |s|
  {
    if s == [] {
    } else if s[0] == BACKSLASH {
      if |s| >= 2 && IsSimpleEscape(s[1]) {
        EscapeIsAscii(s, 2);
        CharsIffValidBody(s[2..]);
      } else if IsUnicodeEscape(s) {
        EscapeIsAscii(s, 6);
        CharsIffValidBody(s[6..]);
      }
    } else if s[0] != QUOTE && s[0] >= SPACE {
      CharFirst(s);
    }
  }

  lemma {:induction false} CharFirst(s: bytes)
    requires s != [] && s[0] != BACKSLASH && s[0] != QUOTE && s[0] >= SPACE
    ensures IsChars(s) <==> IsBody(s) && ValidString(s)
    decreases |s|, 0
  {
    var n := DecodeRune(s).size;
    DecodesChars(s, n);
    if StartsWithChar(s, n) {
      TailsPass(s, n);
      CharsIffValidBody(s[n..]);
    }
    if IsChars(s) {
      var k :| StartsWithChar(s, k) && IsChars(s[k..]);
      DecodesChars(s, k);
    }
  }

  /** The bytes behind a character's first one are no concern of the string grammar. */
  lemma TailsPass(s: bytes, k: nat)
    requires StartsWithChar(s, k) && s[0] != BACKSLASH && s[0] != QUOTE && s[0] >= SPACE
    ensures IsBody(s) <==> IsBody(s[k..])
  {
    hide IsBody;
    assert forall i :: 0 <= i < k ==> s[..k][i] == s[i];
    PlainFirst(s);
    assert forall i :: 0 <= i < k - 1 ==> s[1..][i] == s[i + 1];
    SkipHigh(s[1..], k - 1);
    assert s[1..][k - 1..] == s[k..];
  }

  lemma PlainFirst(s: bytes)
    requires s != [] && s[0] != BACKSLASH && s[0] != QUOTE && s[0] >= SPACE
    ensures IsBody(s) <==> IsBody(s[1..])
  {
  }

  lemma {:induction false} SkipHigh(s: bytes, n: nat)
    requires n <= |s| && forall i :: 0 <= i < n ==> s[i] >= RUNE_SELF
    ensures IsBody(s) <==> IsBody(s[n..])
    decreases n
  {
    hide IsBody;
    if n == 0 {
      assert s[0..] == s;
    } else {
      PlainFirst(s);
      SkipHigh(s[1..], n - 1);
      assert s[1..][n - 1..] == s[n..];
    }
  }

  lemma EscapeIsAscii(s: bytes, n: nat)
    requires 0 < n <= |s| && s[0] == BACKSLASH
    requires (n == 2 && IsSimpleEscape(s[1])) || (n == 6 && IsUnicodeEscape(s))
    ensures ValidString(s) <==> ValidString(s[n..])
  {
    hide ValidString;
    AsciiValid(s[..n]);
    ValidAppend(s[..n], s[n..]);
    assert s == s[..n] + s[n..];
  }

  // ----- where UTF-8 may be cut

  predicate AllAscii(s: bytes) { forall i :: 0 <= i < |s| ==> s[i] < RUNE_SELF }

  lemma {:induction false} AsciiValid(s: bytes)
    ensures AllAscii(s) ==> ValidString(s)
  {
    if AllAscii(s) && s != [] {
      AsciiValid(s[1..]);
    }
  }

  /** In front of an ASCII byte every character has ended: both sides are well-formed or the whole is not. */
  lemma {:induction false} ValidSplit(a: bytes, b: bytes)
    requires b == [] || b[0] < RUNE_SELF
    ensures ValidString(a + b) <==> ValidString(a) && ValidString(b)
    decreases |a|
  {
    if a == [] {
      assert a + b == b;
    } else if IsMalformed(a) {
      MalformedStays(a, b);
    } else {
      var n := DecodeRune(a).size;
      DecodeIsLocal(a, b);
      assert (a + b)[n..] == a[n..] + b;
      ValidSplit(a[n..], b);
    }
  }

  lemma MalformedStays(a: bytes, b: bytes)
    requires a != [] && IsMalformed(a) && (b == [] || b[0] < RUNE_SELF)
    ensures IsMalformed(a + b)
  {
    var s := a + b;
    assert forall i :: 0 <= i < |a| ==> s[i] == a[i];
    assert b != [] ==> s[|a|] == b[0];
  }

  // ----- values

  /** Every string and every member's name consists of characters. */
  ghost predicate Textual(v: Value) {
    match v
    case String(body) => IsChars(body)
    case Container(_, entries) => TextualEntries(entries)
    case _ => true
  }

  ghost predicate TextualEntries(es: Entries) {
    match es
    case Last(e) => TextualEntry(e)
    case More(e, rest) => TextualEntry(e) && TextualEntries(rest)
  }

  ghost predicate TextualEntry(e: Entry) {
    (e.tag.Some? ==> IsChars(e.tag.value.name)) && Textual(e.value)
  }

  lemma SpaceIsAscii(s: bytes)
    requires AllSpace(s)
    ensures AllAscii(s) && ValidString(s) && (s == [] || s[0] < RUNE_SELF)
  {
    AsciiValid(s);
  }

  lemma OneValid(b: byte)
    requires b < RUNE_SELF
    ensures ValidString([b]) && [b][0] < RUNE_SELF
  {
    AsciiValid([b]);
  }

  lemma QuotedText(body: bytes)
    requires IsBody(body)
    ensures ValidString(Quoted(body)) <==> IsChars(body)
    ensures Quoted(body)[0] == QUOTE
  {
    hide ValidString, IsBody, IsChars;
    OneValid(QUOTE);
    ValidSplit([QUOTE] + body, [QUOTE]);
    ValidAppend([QUOTE], body);
    CharsIffValidBody(body);
  }

  lemma ScalarIsAscii(v: Value)
    requires IsValue(v) && (v.Literal? || v.Number?)
    ensures AllAscii(Show(v))
  {
    if v.Number? {
      DigitsAreAscii(v.whole);
      if v.fraction.Some? {
        DigitsAreAscii(v.fraction.value);
      }
      if v.exponent.Some? {
        DigitsAreAscii(v.exponent.value.digits);
      }
    }
  }

  lemma DigitsAreAscii(s: bytes)
    ensures AllDigits(s) || IsWhole(s) ==> AllAscii(s)
  {
  }

  lemma StartsAscii(v: Value)
    requires IsValue(v)
    ensures Show(v) != [] && Show(v)[0] < RUNE_SELF
  {
    hide Show;
    FirstByte(v);
    if v.Literal? || v.Number? {
      ScalarIsAscii(v);
    }
  }

  /** A value's text is well-formed UTF-8 exactly when all its strings and names are characters. */
  lemma {:induction false} ValueText(v: Value)
    requires IsValue(v)
    ensures ValidString(Show(v)) <==> Textual(v)
    decreases v, 0
  {
    match v
    case Literal(_) =>
      ScalarIsAscii(v);
      AsciiValid(Show(v));
    case Number(_, _, _, _) =>
      ScalarIsAscii(v);
      AsciiValid(Show(v));
    case String(body) => QuotedText(body);
    case Empty(kind, gap) =>
      SpaceIsAscii(gap);
      Bracketed(kind, gap);
    case Container(kind, entries) =>
      EntriesText(entries, kind);
      Bracketed(kind, ShowEntries(entries));
  }

  lemma Bracketed(kind: Kind, inner: bytes)
    ensures ValidString([Opening(kind)] + inner + [Closing(kind)]) <==> ValidString(inner)
  {
    hide ValidString;
    OneValid(Opening(kind));
    OneValid(Closing(kind));
    ValidSplit([Opening(kind)] + inner, [Closing(kind)]);
    ValidAppend([Opening(kind)], inner);
  }

  lemma {:induction false} EntriesText(es: Entries, kind: Kind)
    requires IsEntries(es, kind)
    ensures ValidString(ShowEntries(es)) <==> TextualEntries(es)
    decreases es, 0
  {
    EntryText(es.entry, kind);
    if es.More? {
      hide ValidString, ShowEntry;
      EntriesText(es.rest, kind);
      OneValid(COMMA);
      ValidAppend([COMMA], ShowEntries(es.rest));
      ValidSplit(ShowEntry(es.entry), [COMMA] + ShowEntries(es.rest));
      Regroup(ShowEntry(es.entry), [COMMA], ShowEntries(es.rest));
    }
  }

  lemma {:induction false} EntryText(e: Entry, kind: Kind)
    requires IsEntry(e, kind)
    ensures ValidString(ShowEntry(e)) <==> TextualEntry(e)
    decreases e, 1
  {
    hide ValidString, ShowLabel, Show, IsChars;
    var tag, value := ShowLabel(e.tag), Show(e.value);
    SpaceIsAscii(e.before);
    SpaceIsAscii(e.after);
    LabelText(e, kind);
    StartsAscii(e.value);
    ValueText(e.value);
    ValidSplit(e.before + tag + value, e.after);
    ValidSplit(e.before + tag, value);
    ValidAppend(e.before, tag);
  }

  lemma LabelText(e: Entry, kind: Kind)
    requires IsEntry(e, kind)
    ensures ValidString(ShowLabel(e.tag)) <==> (e.tag.Some? ==> IsChars(e.tag.value.name))
  {
    if e.tag.Some? {
      hide ValidString, IsChars, Quoted;
      var l := e.tag.value;
      SpaceIsAscii(l.gap);
      SpaceIsAscii(l.lead);
      OneValid(COLON);
      QuotedText(l.name);
      ValidAppend(l.gap, [COLON]);
      ValidAppend(l.gap + [COLON], l.lead);
      assert Separator(l)[0] == if l.gap == [] then COLON else l.gap[0];
      ValidSplit(Quoted(l.name), Separator(l));
    }
  }

  // ----- documents

  /** A JSON text of RFC 8259 within the recogniser's nesting limit and without duplicate names. */
  ghost predicate IsRfcDocument(unquote: Unquote, s: bytes) {
    exists lead: bytes, v: Value, trail: bytes :: DocumentOf(unquote, s, lead, v, trail) && Textual(v)
  }

  lemma DocumentText(unquote: Unquote, s: bytes, lead: bytes, v: Value, trail: bytes)
    requires DocumentOf(unquote, s, lead, v, trail)
    ensures ValidString(s) <==> Textual(v)
  {
    PrintedPieces(unquote, s, lead, v, trail);
    hide ValidString, Show, Textual, Bindable;
    SpaceIsAscii(lead);
    SpaceIsAscii(trail);
    ValueText(v);
    ValidSplit(lead + Show(v), trail);
    ValidAppend(lead, Show(v));
  }

  /** What the recogniser accepts is a JSON text of RFC 8259 exactly when it is well-formed UTF-8, which it does not ask. */
  lemma RfcDocumentIff(unquote: Unquote, s: bytes)
    ensures IsRfcDocument(unquote, s) <==> Recognised(unquote, s) && ValidString(s)
  {
    hide Recognised, ValidString, Textual, DocumentOf;
    RecognisedIffDocument(unquote, s);
    if lead: bytes, v: Value, trail: bytes :| DocumentOf(unquote, s, lead, v, trail) && Textual(v) {
      DocumentText(unquote, s, lead, v, trail);
      assert IsDocument(unquote, s);
    }
    if Recognised(unquote, s) && ValidString(s) {
      var lead: bytes, v: Value, trail: bytes :| DocumentOf(unquote, s, lead, v, trail);
      DocumentText(unquote, s, lead, v, trail);
    }
  }

  /** The exception: a string holding the single byte 0xFF is accepted. */
  lemma MalformedStringAccepted(unquote: Unquote)
    ensures var s := [QUOTE, 0xFF, QUOTE]; Recognised(unquote, s) && !ValidString(s) && !IsRfcDocument(unquote, s)
  {
    var s: bytes := [QUOTE, 0xFF, QUOTE];
    var v := String([0xFF]);
    assert IsBody([0xFF]) by {
      PlainFirst([0xFF]);
      assert [0xFF][1..] == [];
    }
    assert s == [] + Show(v) + [];
    assert DocumentOf(unquote, s, [], v, []);
    PrintedIsRecognised(unquote, s, [], v, []);
    assert !ValidString(s) by {
      assert s[1..][0] == 0xFF;
    }
    RfcDocumentIff(unquote, s);
  }
}
