/** The scanner itself: a cursor over the input, with loops where the source has them (internal/jsondoc/decode.go). */
module BindingScanners {
  import opened Utf8
  import opened Framing
  import opened JsonGrammar
  import opened JsonScanner
  import opened JsonScannerTheorems

  /** What the scanner reports of a parse: it keeps no tree. */
  datatype Report = Report(ok: bool, next: nat, duplicate: bool)

  function Brief<T>(p: Parse<T>): Report {
    if p.Ok? then Report(true, p.next, false) else Report(false, 0, p.duplicate)
  }

  /** What is reported once an entry's value has been read up to i: the end of the container, or further entries. */
  function AfterValue(unquote: Unquote, s: bytes, i: nat, depth: nat, kind: Kind, seen: set<bytes>): Report
    requires i <= |s|
  {
    var j := SkipSpace(s, i);
    if j < |s| && s[j] == Closing(kind) then Report(true, j + 1, false)
    else if j == |s| || s[j] != COMMA then Report(false, 0, false)
    else Brief(ParseEntries(unquote, s, j + 1, depth, kind, seen))
  }

  /** What is reported once a member's name has been read up to i. */
  function AfterName(unquote: Unquote, s: bytes, i: nat, depth: nat, seen: set<bytes>): Report
    requires i <= |s|
  {
    var colon := SkipSpace(s, i);
    if colon == |s| || s[colon] != COLON then Report(false, 0, false)
    else
      var v := ParseValue(unquote, s, SkipSpace(s, colon + 1), depth);
      if v.Ok? then AfterValue(unquote, s, v.next, depth, ObjectKind, seen) else Report(false, 0, v.duplicate)
  }

  /** One turn of the object loop. */
  lemma MemberTurn(unquote: Unquote, s: bytes, i: nat, depth: nat, seen: set<bytes>)
    requires i <= |s|
    ensures var t := ParseString(s, SkipSpace(s, i));
            Brief(ParseEntries(unquote, s, i, depth, ObjectKind, seen)) ==
            if t.Bad? then Report(false, 0, false)
            else if KeyOf(unquote, t.tree) in seen then Report(false, 0, true)
            else AfterName(unquote, s, t.next, depth, seen + {KeyOf(unquote, t.tree)})
  {
    hide ParseString, KeyOf, ParseValue;
  }

  /** One turn of the array loop. */
  lemma ElementTurn(unquote: Unquote, s: bytes, i: nat, depth: nat)
    requires i <= |s|
    ensures var v := ParseValue(unquote, s, SkipSpace(s, i), depth);
            Brief(ParseEntries(unquote, s, i, depth, ArrayKind, {})) ==
            if v.Ok? then AfterValue(unquote, s, v.next, depth, ArrayKind, {}) else Report(false, 0, v.duplicate)
  {
    hide ParseValue;
  }

  lemma ContainerReport(unquote: Unquote, s: bytes, i: nat, depth: nat, kind: Kind)
    requires i < |s|
    ensures var j := SkipSpace(s, i + 1);
            Brief(ParseContainer(unquote, s, i, depth, kind)) ==
            if j < |s| && s[j] == Closing(kind) then Report(true, j + 1, false)
            else Brief(ParseEntries(unquote, s, i + 1, depth + 1, kind, {}))
  {
    hide ParseEntries;
  }

  lemma SkipTwice(s: bytes, i: nat)
    requires i <= |s|
    ensures SkipSpace(s, SkipSpace(s, i)) == SkipSpace(s, i)
  {
  }

  class BindingScanner {
    const input: bytes
    const unquote: Unquote
    var pos: nat
    var duplicate: bool

    constructor (input: bytes, unquote: Unquote)
      ensures this.input == input && this.unquote == unquote && pos == 0 && !duplicate
    {
      this.input, this.unquote := input, unquote;
      pos, duplicate := 0, false;
    }

    method Space()
      requires pos <= |input|
      modifies `pos
      ensures pos == SkipSpace(input, old(pos)) <= |input|
    {
      while pos < |input|
        invariant pos <= |input| && SkipSpace(input, pos) == SkipSpace(input, old(pos))
      {
        if !IsSpace(input[pos]) {
          return;
        }
        pos := pos + 1;
      }
    }

    method Take(want: byte) returns (ok: bool)
      requires pos <= |input| && !IsSpace(want)
      modifies `pos
      ensures var j := SkipSpace(input, old(pos));
              && j <= |input|
              && ok == (j < |input| && input[j] == want)
              && pos == if ok then j + 1 else j
    {
      Space();
      if pos >= |input| || input[pos] != want {
        return false;
      }
      pos := pos + 1;
      return true;
    }

    method Escape() returns (ok: bool)
      requires pos <= |input|
      modifies `pos
      ensures old(pos) <= pos <= |input|
      ensures ok == EscapeEnd(input, old(pos)).Some?
      ensures ok ==> pos == EscapeEnd(input, old(pos)).value
    {
      if pos == |input| {
        return false;
      }
      ghost var start := pos;
      var c := input[pos];
      pos := pos + 1;
      if IsSimpleEscape(c) {
        return true;
      }
      if c != 117 {
        return false;
      }
      for digit := 0 to 4
        invariant pos == start + 1 + digit <= |input|
        invariant digit >= 1 ==> IsHex(input[start + 1])
        invariant digit >= 2 ==> IsHex(input[start + 2])
        invariant digit >= 3 ==> IsHex(input[start + 3])
        invariant digit >= 4 ==> IsHex(input[start + 4])
      {
        if pos == |input| || !IsHex(input[pos]) {
          return false;
        }
        pos := pos + 1;
      }
      return true;
    }

    method StringToken() returns (start: nat, end: nat, escaped: bool, ok: bool)
      requires pos <= |input|
      modifies `pos
      ensures start == SkipSpace(input, old(pos)) <= end == pos <= |input|
      ensures ok == ParseString(input, start).Ok?
      ensures ok ==> end == ParseString(input, start).next && (escaped <==> BACKSLASH in ParseString(input, start).tree)
    {
      Space();
      start := pos;
      escaped := false;
      var quote := Take(QUOTE);
      if !quote {
        return start, pos, escaped, false;
      }
      while pos < |input|
        invariant start < pos <= |input| && input[start] == QUOTE
        invariant BodyEnd(input, pos) == BodyEnd(input, start + 1)
        invariant escaped <==> BACKSLASH in input[start + 1..pos]
        decreases |input| - pos
      {
        var c, at := input[pos], pos;
        pos := pos + 1;
        assert input[start + 1..pos] == input[start + 1..at] + [c];
        if c == QUOTE {
          assert ParseString(input, start) == Ok(input[start + 1..at], pos);
          return start, pos, escaped, true;
        }
        if c < SPACE {
          return start, pos, escaped, false;
        }
        if c == BACKSLASH {
          escaped := true;
          var valid := Escape();
          if !valid {
            return start, pos, escaped, false;
          }
          assert input[at] in input[start + 1..pos];
        }
      }
      return start, pos, escaped, false;
    }

    /** The name a member is compared by. */
    method Key(start: nat, end: nat, escaped: bool) returns (key: bytes)
      requires start + 2 <= end <= |input| && input[start..end] == Quoted(input[start + 1..end - 1])
      requires escaped <==> BACKSLASH in input[start + 1..end - 1]
      ensures key == KeyOf(unquote, input[start + 1..end - 1])
    {
      var plain := input[start + 1..end - 1];
      if !escaped && ValidString(plain) {
        return plain;
      }
      return unquote(input[start..end]);
    }

    method Literal(word: bytes) returns (ok: bool)
      requires pos <= |input|
      modifies `pos
      ensures old(pos) <= pos <= |input| && Brief(ParseLiteral(input, old(pos), word)) == Report(ok, if ok then pos else 0, false)
    {
      if !(word <= input[pos..]) {
        return false;
      }
      pos := pos + |word|;
      return true;
    }

    method Digits() returns (ok: bool)
      requires pos <= |input|
      modifies `pos
      ensures pos == SkipDigits(input, old(pos)) && ok == (pos > old(pos))
    {
      var start := pos;
      while pos < |input| && IsDigit(input[pos])
        invariant start <= pos <= |input| && SkipDigits(input, pos) == SkipDigits(input, start)
      {
        pos := pos + 1;
      }
      return pos > start;
    }

    method Number() returns (ok: bool)
      requires pos < |input|
      modifies `pos
      ensures old(pos) <= pos <= |input| && Brief(ParseNumber(input, old(pos))) == Report(ok, if ok then pos else 0, false)
    {
      if input[pos] == MINUS {
        pos := pos + 1;
      }
      if pos == |input| {
        return false;
      }
      if input[pos] == ZERO {
        pos := pos + 1;
      } else {
        ok := Digits();
        if !ok {
          return;
        }
      }
      ok := FractionAndExponent();
    }

    /** The optional tail of a number. */
    method FractionAndExponent() returns (ok: bool)
      requires pos <= |input|
      modifies `pos
      ensures old(pos) <= pos <= |input|
      ensures var f := ParseFraction(input, old(pos));
              && ok == (f.Ok? && ParseExponent(input, f.next).Ok?)
              && (ok ==> pos == ParseExponent(input, f.next).next)
    {
      if pos < |input| && input[pos] == DOT {
        pos := pos + 1;
        ok := Digits();
        if !ok {
          return;
        }
      }
      if pos < |input| && (input[pos] == 101 || input[pos] == 69) {
        pos := pos + 1;
        if pos < |input| && (input[pos] == PLUS || input[pos] == MINUS) {
          pos := pos + 1;
        }
        ok := Digits();
        if !ok {
          return;
        }
      }
      return true;
    }

    /** One value from the next byte that is not whitespace. */
    method Value(depth: nat) returns (ok: bool)
      requires pos <= |input| && !duplicate
      modifies this
      ensures Ran(old(pos), ok, Brief(ParseValue(unquote, input, SkipSpace(input, old(pos)), depth)))
      decreases |input| - pos, 2
    {
      hide ParseContainer, ParseString, ParseLiteral, ParseNumber;
      SkipTwice(input, pos);
      Space();
      if pos == |input| {
        return false;
      }
      var c := input[pos];
      if c == LEFT_BRACE {
        if depth >= MAX_DEPTH {
          return false;
        }
        ok := Object(depth + 1);
      } else if c == LEFT_BRACKET {
        if depth >= MAX_DEPTH {
          return false;
        }
        ok := Array(depth + 1);
      } else if c == QUOTE {
        var start, end, escaped;
        start, end, escaped, ok := StringToken();
      } else if c == 116 {
        ok := Literal(TRUE);
      } else if c == 102 {
        ok := Literal(FALSE);
      } else if c == 110 {
        ok := Literal(NULL);
      } else {
        ok := Number();
      }
    }

    /** The cursor and the duplicate flag agree with what the parse from `from` says. */
    ghost predicate Ran(from: nat, ok: bool, r: Report)
      reads this
    {
      && from <= pos <= |input|
      && ok == r.ok
      && (ok ==> pos == r.next && from < pos)
      && duplicate == r.duplicate
    }

    /** An object from its opening brace; its keys so far are kept in a set. */
    method Object(depth: nat) returns (ok: bool)
      requires pos < |input| && !duplicate && depth > 0
      modifies this
      ensures Ran(old(pos), ok, Brief(ParseContainer(unquote, input, old(pos), depth - 1, ObjectKind)))
      decreases |input| - pos, 1
    {
      hide ParseContainer, ParseEntries, KeyOf;
      ghost var start := pos;
      ContainerReport(unquote, input, pos, depth - 1, ObjectKind);
      pos := pos + 1;
      SkipTwice(input, pos);
      var closed := Take(RIGHT_BRACE);
      if closed {
        return true;
      }
      ghost var goal := Brief(ParseContainer(unquote, input, start, depth - 1, ObjectKind));
      EntriesSkip(start + 1, depth, ObjectKind, {});
      var keys: set<bytes> := {};
      while true
        invariant start < pos <= |input| && !duplicate
        invariant Brief(ParseEntries(unquote, input, pos, depth, ObjectKind, keys)) == goal
        decreases |input| - pos
      {
        var done;
        ok, done, keys := Member(depth, keys);
        if !ok || done {
          return;
        }
      }
    }

    /** One turn of an object's loop. */
    method Member(depth: nat, keys: set<bytes>) returns (ok: bool, done: bool, more: set<bytes>)
      requires pos <= |input| && !duplicate
      modifies this
      ensures old(pos) <= pos <= |input|
      ensures var r := Brief(ParseEntries(unquote, input, old(pos), depth, ObjectKind, keys));
              if ok && !done
              then old(pos) < pos && !duplicate && r == Brief(ParseEntries(unquote, input, pos, depth, ObjectKind, more))
              else Ran(old(pos), ok, r)
      decreases |input| - pos, 4
    {
      hide ParseEntries, KeyOf, ParseString, AfterName;
      MemberTurn(unquote, input, pos, depth, keys);
      more := keys;
      var name, end, escaped, valid := StringToken();
      if !valid {
        return false, true, more;
      }
      var key := KeyAt(name, end, escaped);
      if key in keys {
        duplicate := true;
        return false, true, more;
      }
      more := keys + {key};
      ok, done := MemberRest(depth, more);
    }

    method KeyAt(start: nat, end: nat, escaped: bool) returns (key: bytes)
      requires start <= |input| && ParseString(input, start).Ok? && end == ParseString(input, start).next
      requires escaped <==> BACKSLASH in ParseString(input, start).tree
      ensures key == KeyOf(unquote, ParseString(input, start).tree)
    {
      key := Key(start, end, escaped);
    }

    /** Leading whitespace before the first entry makes no difference to what is reported. */
    lemma EntriesSkip(i: nat, depth: nat, kind: Kind, seen: set<bytes>)
      requires i <= |input|
      ensures Brief(ParseEntries(unquote, input, SkipSpace(input, i), depth, kind, seen)) ==
              Brief(ParseEntries(unquote, input, i, depth, kind, seen))
    {
      SkipTwice(input, i);
      if kind == ObjectKind {
        MemberTurn(unquote, input, i, depth, seen);
        MemberTurn(unquote, input, SkipSpace(input, i), depth, seen);
      }
    }

    /** The part of an object's loop after its key: colon, value, and what separates it from the next member. */
    method MemberRest(depth: nat, keys: set<bytes>) returns (ok: bool, done: bool)
      requires pos <= |input| && !duplicate
      modifies this
      ensures old(pos) <= pos <= |input|
      ensures var r := AfterName(unquote, input, old(pos), depth, keys);
              if ok && !done
              then old(pos) < pos && !duplicate && r == Brief(ParseEntries(unquote, input, pos, depth, ObjectKind, keys))
              else Ran(old(pos), ok, r)
      decreases |input| - pos, 3
    {
      hide ParseEntries, ParseValue;
      var colon := Take(COLON);
      if !colon {
        return false, true;
      }
      ok := Value(depth);
      if !ok {
        return false, true;
      }
      ok, done := Separator(depth, ObjectKind, keys);
    }

    /** The closing bracket, or a comma before the next entry. */
    method Separator(depth: nat, kind: Kind, keys: set<bytes>) returns (ok: bool, done: bool)
      requires pos <= |input| && !duplicate
      modifies `pos
      ensures old(pos) <= pos <= |input|
      ensures var r := AfterValue(unquote, input, old(pos), depth, kind, keys);
              if ok && !done
              then old(pos) < pos && r == Brief(ParseEntries(unquote, input, pos, depth, kind, keys))
              else Ran(old(pos), ok, r)
    {
      hide ParseEntries;
      SkipTwice(input, pos);
      done := Take(Closing(kind));
      if done {
        return true, true;
      }
      ok := Take(COMMA);
    }

    method Array(depth: nat) returns (ok: bool)
      requires pos < |input| && !duplicate && depth > 0
      modifies this
      ensures Ran(old(pos), ok, Brief(ParseContainer(unquote, input, old(pos), depth - 1, ArrayKind)))
      decreases |input| - pos, 1
    {
      hide ParseContainer, ParseEntries, ParseValue;
      ghost var start := pos;
      ContainerReport(unquote, input, pos, depth - 1, ArrayKind);
      pos := pos + 1;
      SkipTwice(input, pos);
      var closed := Take(RIGHT_BRACKET);
      if closed {
        return true;
      }
      ghost var goal := Brief(ParseContainer(unquote, input, start, depth - 1, ArrayKind));
      ElementTurn(unquote, input, start + 1, depth);
      ElementTurn(unquote, input, pos, depth);
      while true
        invariant start < pos <= |input| && !duplicate
        invariant Brief(ParseEntries(unquote, input, pos, depth, ArrayKind, {})) == goal
        decreases |input| - pos
      {
        ElementTurn(unquote, input, pos, depth);
        ok := Value(depth);
        if !ok {
          return;
        }
        var done;
        ok, done := Separator(depth, ArrayKind, {});
        if !ok || done {
          return;
        }
      }
    }
  }

  /** How validateBindingDocument ends; the later checks belong to the standard library. */
  datatype Verdict = Accepted | DuplicateKey | TrailingData | LeftToDecoder(err: bool)

  /**
   * validateBindingDocument. `valid` and `decodes` stand for encoding/json: its syntax check, and whether the
   * token-by-token decoder accepts the input.
   */
  method ValidateBindingDocument(input: bytes, unquote: Unquote, valid: bytes -> bool, decodes: bytes -> bool)
    returns (verdict: Verdict)
    ensures verdict == Accepted <==> IsDocument(unquote, input) && valid(input)
    ensures verdict == DuplicateKey <==> ParseValue(unquote, input, SkipSpace(input, 0), 0) == Bad(true)
    ensures verdict == TrailingData <==> ParseValue(unquote, input, SkipSpace(input, 0), 0).Ok? && !IsDocument(unquote, input)
    ensures verdict.LeftToDecoder? ==> verdict.err == !decodes(input)
    ensures IsDocument(unquote, input) ==> verdict == Accepted || verdict.LeftToDecoder?
  {
    RecognisedIffDocument(unquote, input);
    var scanner := new BindingScanner(input, unquote);
    var ok := scanner.Value(0);
    if !ok {
      if scanner.duplicate {
        return DuplicateKey;
      }
      return LeftToDecoder(!decodes(input));
    }
    scanner.Space();
    if scanner.pos != |input| {
      return TrailingData;
    }
    if !valid(input) {
      return LeftToDecoder(!decodes(input));
    }
    return Accepted;
  }
}
