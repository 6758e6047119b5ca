/** The duplicate-rejecting JSON recogniser that runs before binding (internal/jsondoc/decode.go). */
module JsonScanner {
  import opened Wrappers
  import opened Utf8
  import opened Framing
  import opened JsonGrammar

  const MAX_DEPTH := 10000

  /** Unmarshal of a quoted token, which the scanner leaves to the standard library. */
  type Unquote = bytes -> bytes

  // ----- what the recogniser must accept

  /** Container nesting. */
  function Depth(v: Value): nat {
    match v
    case Empty(_, _) => 1
    case Container(_, entries) => 1 + DepthEntries(entries)
    case _ => 0
  }

  function DepthEntries(es: Entries): nat {
    match es
    case Last(e) => Depth(e.value)
    case More(e, rest) => Max(Depth(e.value), DepthEntries(rest))
  }

  /** The member name as the scanner compares it: decoded unless it is plain, well-formed text. */
  function KeyOf(unquote: Unquote, body: bytes): bytes {
    if BACKSLASH !in body && ValidString(body) then body else unquote(Quoted(body))
  }

  /** No object in v has two members of the same decoded name. */
  predicate UniqueKeys(unquote: Unquote, v: Value) {
    v.Container? ==> UniqueEntries(unquote, v.entries, {})
  }

  predicate UniqueEntries(unquote: Unquote, es: Entries, seen: set<bytes>) {
    match es
    case Last(e) => FreshKey(unquote, e, seen) && UniqueKeys(unquote, e.value)
    case More(e, rest) =>
      && FreshKey(unquote, e, seen)
      && UniqueKeys(unquote, e.value)
      && UniqueEntries(unquote, rest, WithKey(unquote, e, seen))
  }

  predicate FreshKey(unquote: Unquote, e: Entry, seen: set<bytes>) {
    e.tag.Some? ==> KeyOf(unquote, e.tag.value.name) !in seen
  }

  function WithKey(unquote: Unquote, e: Entry, seen: set<bytes>): set<bytes> {
    if e.tag.Some? then seen + {KeyOf(unquote, e.tag.value.name)} else seen
  }

  function Members(es: Entries): seq<Entry> {
    match es
    case Last(e) => [e]
    case More(e, rest) => [e] + Members(rest)
  }

  /** Two members of the same decoded name. */
  predicate SameName(unquote: Unquote, a: Entry, b: Entry) {
    a.tag.Some? && b.tag.Some? && KeyOf(unquote, a.tag.value.name) == KeyOf(unquote, b.tag.value.name)
  }

  predicate NamesApart(unquote: Unquote, m: seq<Entry>) {
    forall i, j :: 0 <= i < j < |m| ==> !SameName(unquote, m[i], m[j])
  }

  /** Names are unique in a container exactly if no two of its members have the same one, and in every value inside it. */
  lemma UniqueKeysIff(unquote: Unquote, v: Value)
    requires v.Container?
    ensures UniqueKeys(unquote, v) <==>
            NamesApart(unquote, Members(v.entries)) && forall e :: e in Members(v.entries) ==> UniqueKeys(unquote, e.value)
  {
    hide KeyOf, UniqueKeys, NamesApart;
    UniqueEntriesIff(unquote, v.entries, {});
    UniqueKeysAre(unquote, v);
  }

  lemma UniqueKeysAre(unquote: Unquote, v: Value)
    ensures UniqueKeys(unquote, v) <==> v.Container? ==> UniqueEntries(unquote, v.entries, {})
  {
  }

  lemma {:induction false} UniqueEntriesIff(unquote: Unquote, es: Entries, seen: set<bytes>)
    ensures var m := Members(es);
            UniqueEntries(unquote, es, seen) <==>
            NamesApart(unquote, m) && forall e :: e in m ==> FreshKey(unquote, e, seen) && UniqueKeys(unquote, e.value)
    decreases es
  {
    hide KeyOf, UniqueKeys;
    if es.More? {
      var e, rest := es.entry, Members(es.rest);
      var m := [e] + rest;
      UniqueEntriesIff(unquote, es.rest, WithKey(unquote, e, seen));
      hide NamesApart;
      assert forall x :: x in m <==> x == e || x in rest;
      assert forall x :: x in rest ==> (FreshKey(unquote, x, WithKey(unquote, e, seen)) <==> FreshKey(unquote, x, seen) && !SameName(unquote, e, x));
      NamesApartFirst(unquote, e, rest);
    }
  }

  lemma NamesApartFirst(unquote: Unquote, e: Entry, rest: seq<Entry>)
    ensures NamesApart(unquote, [e] + rest) <==> NamesApart(unquote, rest) && forall x :: x in rest ==> !SameName(unquote, e, x)
  {
    hide SameName;
    var m := [e] + rest;
    assert forall i :: 0 <= i < |rest| ==> m[i + 1] == rest[i];
    if NamesApart(unquote, m) {
      forall x | x in rest
        ensures !SameName(unquote, e, x)
      {
        var k :| 0 <= k < |rest| && rest[k] == x;
        assert m[0] == e && m[k + 1] == x;
      }
    }
    if NamesApart(unquote, rest) && forall x :: x in rest ==> !SameName(unquote, e, x) {
      forall i, j | 0 <= i < j < |m|
        ensures !SameName(unquote, m[i], m[j])
      {
        assert m[j] == rest[j - 1];
        assert i > 0 ==> m[i] == rest[i - 1];
      }
    }
  }

  /** Names are compared as decoded; leaving plain ones alone is only a short cut. */
  lemma KeyIsDecoded(unquote: Unquote, body: bytes)
    requires forall plain :: BACKSLASH !in plain && ValidString(plain) ==> unquote(Quoted(plain)) == plain
    ensures KeyOf(unquote, body) == unquote(Quoted(body))
  {
  }

  /** Values of the grammar within the nesting limit and without duplicate members. */
  predicate Bindable(unquote: Unquote, v: Value, depth: nat) {
    IsValue(v) && UniqueKeys(unquote, v) && depth + Depth(v) <= MAX_DEPTH
  }

  // ----- the recogniser as a function of positions

  datatype Parse<T> = Ok(tree: T, next: nat) | Bad(duplicate: bool)

  function SkipSpace(s: bytes, i: nat): (j: nat)
    requires i <= |s|
    ensures i <= j <= |s|
    ensures j < |s| ==> !IsSpace(s[j])
    decreases |s| - i
  {
    if i < |s| && IsSpace(s[i]) then SkipSpace(s, i + 1) else i
  }

  function SkipDigits(s: bytes, i: nat): (j: nat)
    requires i <= |s|
    ensures i <= j <= |s|
    ensures j < |s| ==> !IsDigit(s[j])
    decreases |s| - i
  {
    if i < |s| && IsDigit(s[i]) then SkipDigits(s, i + 1) else i
  }

  /** The end of an escape whose backslash stands before i. */
  function EscapeEnd(s: bytes, i: nat): (j: Option<nat>)
    requires i <= |s|
    ensures j.Some? ==> i < j.value <= |s|
  {
    if i == |s| then None
    else if IsSimpleEscape(s[i]) then Some(i + 1)
    else if s[i] == 117 && i + 5 <= |s| && IsHex(s[i + 1]) && IsHex(s[i + 2]) && IsHex(s[i + 3]) && IsHex(s[i + 4])
      then Some(i + 5)
    else None
  }

  /** The closing quote of a string whose body continues at i. */
  function BodyEnd(s: bytes, i: nat): (j: Option<nat>)
    requires i <= |s|
    ensures j.Some? ==> i <= j.value < |s| && s[j.value] == QUOTE
    decreases |s| - i
  {
    if i == |s| then None
    else if s[i] == QUOTE then Some(i)
    else if s[i] < SPACE then None
    else if s[i] == BACKSLASH then
      var e := EscapeEnd(s, i + 1);
      if e.Some? then BodyEnd(s, e.value) else None
    else BodyEnd(s, i + 1)
  }

  /** A string token at i: its body. */
  function ParseString(s: bytes, i: nat): (p: Parse<bytes>)
    requires i <= |s|
    ensures p.Ok? ==> i + 2 <= p.next <= |s| && |p.tree| == p.next - i - 2 && s[i..p.next] == Quoted(p.tree)
    ensures p.Bad? ==> !p.duplicate
  {
    if i == |s| || s[i] != QUOTE then Bad(false)
    else
      var e := BodyEnd(s, i + 1);
      if e.Some? then Ok(s[i + 1..e.value], e.value + 1) else Bad(false)
  }

  function ParseLiteral(s: bytes, i: nat, word: bytes): (p: Parse<Value>)
    requires i <= |s|
    ensures p.Ok? ==> p.next == i + |word| <= |s|
  {
    if word <= s[i..] then Ok(Literal(word), i + |word|) else Bad(false)
  }

  function ParseWhole(s: bytes, i: nat): (p: Parse<bytes>)
    requires i <= |s|
    ensures p.Ok? ==> i < p.next <= |s| && p.tree == s[i..p.next]
  {
    if i == |s| then Bad(false)
    else if s[i] == ZERO then Ok(s[i..i + 1], i + 1)
    else ParseDigits(s, i)
  }

  function ParseDigits(s: bytes, i: nat): (p: Parse<bytes>)
    requires i <= |s|
    ensures p.Ok? ==> i < p.next <= |s| && p.tree == s[i..p.next]
  {
    var end := SkipDigits(s, i);
    if end == i then Bad(false) else Ok(s[i..end], end)
  }

  function ParseFraction(s: bytes, i: nat): (p: Parse<Option<bytes>>)
    requires i <= |s|
    ensures p.Ok? ==> i <= p.next <= |s|
  {
    if i < |s| && s[i] == DOT then
      var d := ParseDigits(s, i + 1);
      if d.Ok? then Ok(Some(d.tree), d.next) else Bad(false)
    else Ok(None, i)
  }

  function ParseExponent(s: bytes, i: nat): (p: Parse<Option<Exponent>>)
    requires i <= |s|
    ensures p.Ok? ==> i <= p.next <= |s|
  {
    if i < |s| && (s[i] == 101 || s[i] == 69) then
      var signed := i + 1 < |s| && (s[i + 1] == PLUS || s[i + 1] == MINUS);
      var d := ParseDigits(s, if signed then i + 2 else i + 1);
      if d.Ok? then Ok(Some(Exponent(s[i], if signed then Some(s[i + 1]) else None, d.tree)), d.next) else Bad(false)
    else Ok(None, i)
  }

  function ParseNumber(s: bytes, i: nat): (p: Parse<Value>)
    requires i < |s|
    ensures p.Ok? ==> i < p.next <= |s|
  {
    var negative := s[i] == MINUS;
    var w := ParseWhole(s, if negative then i + 1 else i);
    if w.Bad? then Bad(false)
    else
      var f := ParseFraction(s, w.next);
      if f.Bad? then Bad(false)
      else
        var e := ParseExponent(s, f.next);
        if e.Bad? then Bad(false) else Ok(Number(negative, w.tree, f.tree, e.tree), e.next)
  }

  /** A value whose first byte stands at i. */
  function ParseValue(unquote: Unquote, s: bytes, i: nat, depth: nat): (p: Parse<Value>)
    requires i <= |s|
    ensures p.Ok? ==> i < p.next <= |s|
    decreases |s| - i, 0
  {
    if i == |s| then Bad(false)
    else if s[i] == LEFT_BRACE then
      if depth < MAX_DEPTH then ParseContainer(unquote, s, i, depth, ObjectKind) else Bad(false)
    else if s[i] == LEFT_BRACKET then
      if depth < MAX_DEPTH then ParseContainer(unquote, s, i, depth, ArrayKind) else Bad(false)
    else if s[i] == QUOTE then
      var t := ParseString(s, i);
      if t.Ok? then Ok(String(t.tree), t.next) else Bad(false)
    else if s[i] == 116 then ParseLiteral(s, i, TRUE)
    else if s[i] == 102 then ParseLiteral(s, i, FALSE)
    else if s[i] == 110 then ParseLiteral(s, i, NULL)
    else ParseNumber(s, i)
  }

  function ParseContainer(unquote: Unquote, s: bytes, i: nat, depth: nat, kind: Kind): (p: Parse<Value>)
    requires i < |s|
    ensures p.Ok? ==> i < p.next <= |s|
    decreases |s| - i - 1, 3
  {
    var j := SkipSpace(s, i + 1);
    if j < |s| && s[j] == Closing(kind) then Ok(Empty(kind, s[i + 1..j]), j + 1)
    else
      var es := ParseEntries(unquote, s, i + 1, depth + 1, kind, {});
      if es.Ok? then Ok(Container(kind, es.tree), es.next) else Bad(es.duplicate)
  }

  /** A member's name with its colon and the whitespace around it, at i. */
  function ParseLabel(s: bytes, i: nat): (p: Parse<Label>)
    requires i <= |s|
    ensures p.Ok? ==> i < p.next <= |s| && SkipSpace(s, p.next) == p.next
  {
    var t := ParseString(s, i);
    if t.Bad? then Bad(false)
    else
      var colon := SkipSpace(s, t.next);
      if colon == |s| || s[colon] != COLON then Bad(false)
      else
        var v := SkipSpace(s, colon + 1);
        Ok(Label(t.tree, s[t.next..colon], s[colon + 1..v]), v)
  }

  /** One or more entries from i, through the closing bracket. */
  function ParseEntries(unquote: Unquote, s: bytes, i: nat, depth: nat, kind: Kind, seen: set<bytes>): (p: Parse<Entries>)
    requires i <= |s|
    ensures p.Ok? ==> i < p.next <= |s|
    decreases |s| - i, 2
  {
    var head := ParseHead(unquote, s, i, depth, kind, seen);
    if head.Bad? then Bad(head.duplicate)
    else ParseMore(unquote, s, head.tree, head.next, depth, kind, seen)
  }

  /** An entry up to the end of its value; the whitespace after it is still to come. */
  function ParseHead(unquote: Unquote, s: bytes, i: nat, depth: nat, kind: Kind, seen: set<bytes>): (p: Parse<Entry>)
    requires i <= |s|
    ensures p.Ok? ==> i < p.next <= |s|
    decreases |s| - i, 1
  {
    var start := SkipSpace(s, i);
    var tag := ParseTag(unquote, s, start, kind, seen);
    if tag.Bad? then Bad(tag.duplicate)
    else
      var v := ParseValue(unquote, s, tag.next, depth);
      if v.Bad? then Bad(v.duplicate) else Ok(Entry(s[i..start], tag.tree, v.tree, []), v.next)
  }

  /** What stands before an entry's value: a member's name, or nothing in an array. */
  function ParseTag(unquote: Unquote, s: bytes, i: nat, kind: Kind, seen: set<bytes>): (p: Parse<Option<Label>>)
    requires i <= |s|
    ensures p.Ok? ==> i <= p.next <= |s|
  {
    if kind == ArrayKind then Ok(None, i)
    else
      var l := ParseName(unquote, s, i, seen);
      if l.Bad? then Bad(l.duplicate) else Ok(Some(l.tree), l.next)
  }

  /** A label that is not a duplicate; a duplicate is noticed before the colon is looked for. */
  function ParseName(unquote: Unquote, s: bytes, i: nat, seen: set<bytes>): (p: Parse<Label>)
    requires i <= |s|
    ensures p.Ok? ==> i < p.next <= |s| && ParseLabel(s, i) == p && KeyOf(unquote, p.tree.name) !in seen
  {
    var t := ParseString(s, i);
    if t.Ok? && KeyOf(unquote, t.tree) in seen then Bad(true)
    else ParseLabel(s, i)
  }

  /** What follows an entry's value at i: whitespace, then the closing bracket or a comma and further entries. */
  function ParseMore(unquote: Unquote, s: bytes, e: Entry, i: nat, depth: nat, kind: Kind, seen: set<bytes>): (p: Parse<Entries>)
    requires i <= |s|
    ensures p.Ok? ==> i < p.next <= |s|
    decreases |s| - i, 2
  {
    var j := SkipSpace(s, i);
    var entry := e.(after := s[i..j]);
    if j < |s| && s[j] == Closing(kind) then Ok(Last(entry), j + 1)
    else if j == |s| || s[j] != COMMA then Bad(false)
    else
      var rest := ParseEntries(unquote, s, j + 1, depth, kind, WithKey(unquote, e, seen));
      if rest.Ok? then Ok(More(entry, rest.tree), rest.next) else Bad(rest.duplicate)
  }
}
