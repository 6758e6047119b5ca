/** Bytes, and UTF-8 as RFC 3629 section 4 defines it and as Go's unicode/utf8 package decodes it. */
module Utf8 {

  type byte = b: int | 0 <= b < 256
  type bytes = seq<byte>

  const RUNE_SELF := 0x80
  const RUNE_ERROR := 0xFFFD
  const UTF_MAX := 4

  function Min(a: int, b: int): int { if a <= b then a else b }

  function Max(a: int, b: int): int { if a >= b then a else b }

  /** The bytes of an ASCII text. */
  function Ascii(text: string): bytes
    requires forall i :: 0 <= i < |text| ==> text[i] as int < RUNE_SELF
  {
    seq(|text|, i requires 0 <= i < |text| => text[i] as int)
  }

  predicate Between(b: byte, first: char, last: char) { first as int <= b <= last as int }

  predicate IsTail(b: byte) { 0x80 <= b <= 0xBF }

  // ----- RFC 3629 section 4, rule UTF8-char

  predicate IsChar(c: bytes) {
    || (|c| == 1 && c[0] <= 0x7F)
    || (|c| == 2 && 0xC2 <= c[0] <= 0xDF && IsTail(c[1]))
    || (|c| == 3 && SecondOfThree(c[0], c[1]) && IsTail(c[2]))
    || (|c| == 4 && SecondOfFour(c[0], c[1]) && IsTail(c[2]) && IsTail(c[3]))
  }

  predicate SecondOfThree(first: byte, second: byte) {
    || (first == 0xE0 && 0xA0 <= second <= 0xBF)
    || (0xE1 <= first <= 0xEC && IsTail(second))
    || (first == 0xED && 0x80 <= second <= 0x9F)
    || (0xEE <= first <= 0xEF && IsTail(second))
  }

  predicate SecondOfFour(first: byte, second: byte) {
    || (first == 0xF0 && 0x90 <= second <= 0xBF)
    || (0xF1 <= first <= 0xF3 && IsTail(second))
    || (first == 0xF4 && 0x80 <= second <= 0x8F)
  }

  /** Rule UTF8-octets: a sequence of characters. */
  ghost predicate IsOctets(s: bytes) {
    s == [] || exists k :: StartsWithChar(s, k) && IsOctets(s[k..])
  }

  predicate StartsWithChar(s: bytes, k: int) {
    1 <= k <= UTF_MAX && k <= |s| && IsChar(s[..k])
  }

  // ----- unicode/utf8

  datatype Decoded = Decoded(rune: int, size: nat)

  /** The number of bytes the first byte asks for; 0 for a byte that starts no character. */
  function Needed(first: byte): (n: nat)
    ensures n <= UTF_MAX
  {
    if first <= 0x7F then 1
    else if 0xC2 <= first <= 0xDF then 2
    else if 0xE0 <= first <= 0xEF then 3
    else if 0xF0 <= first <= 0xF4 then 4
    else 0
  }

  /** The range the second byte must lie in. */
  predicate SecondAccepted(first: byte, second: byte) {
    if first == 0xE0 then 0xA0 <= second <= 0xBF
    else if first == 0xED then 0x80 <= second <= 0x9F
    else if first == 0xF0 then 0x90 <= second <= 0xBF
    else if first == 0xF4 then 0x80 <= second <= 0x8F
    else IsTail(second)
  }

  function Low(b: byte, modulus: int): int
    requires modulus > 0
  {
    b as int % modulus
  }

  /** utf8.DecodeRune: the first rune and its width; a malformed or short one is (U+FFFD, 1). */
  function DecodeRune(s: bytes): (d: Decoded)
    ensures s != [] ==> 1 <= d.size <= |s| && d.size <= UTF_MAX
    ensures s != [] && s[0] < RUNE_SELF ==> d == Decoded(s[0], 1)
  {
    if s == [] then Decoded(RUNE_ERROR, 0)
    else
      var n := Needed(s[0]);
      if n == 1 then Decoded(s[0], 1)
      else if n == 0 || |s| < n || !SecondAccepted(s[0], s[1]) then Decoded(RUNE_ERROR, 1)
      else if n == 2 then Decoded(Low(s[0], 32) * 64 + Low(s[1], 64), 2)
      else if !IsTail(s[2]) then Decoded(RUNE_ERROR, 1)
      else if n == 3 then Decoded(Low(s[0], 16) * 4096 + Low(s[1], 64) * 64 + Low(s[2], 64), 3)
      else if !IsTail(s[3]) then Decoded(RUNE_ERROR, 1)
      else Decoded(Low(s[0], 8) * 262144 + Low(s[1], 64) * 4096 + Low(s[2], 64) * 64 + Low(s[3], 64), 4)
  }

  /** utf8.DecodeLastRune: looks back over at most three continuation bytes. */
  function DecodeLastRune(s: bytes): (d: Decoded)
    ensures s != [] && s[|s| - 1] < RUNE_SELF ==> d == Decoded(s[|s| - 1], 1)
  {
    if s == [] then Decoded(RUNE_ERROR, 0)
    else if s[|s| - 1] < RUNE_SELF then Decoded(s[|s| - 1], 1)
    else
      var start := RuneStartBefore(s, |s| - 1, Max(0, |s| - UTF_MAX));
      var d := DecodeRune(s[start..]);
      if start + d.size != |s| then Decoded(RUNE_ERROR, 1) else d
  }

  function RuneStartBefore(s: bytes, from: nat, limit: nat): (start: nat)
    requires limit <= from < |s|
    ensures start < |s|
    decreases from
  {
    if from == limit then (if limit == 0 then 0 else limit - 1)
    else if !IsTail(s[from - 1]) then from - 1
    else RuneStartBefore(s, from - 1, limit)
  }

  /** utf8.FullRune: false exactly for a proper prefix of some well-formed character. */
  predicate FullRune(s: bytes) {
    && s != []
    && (|| Needed(s[0]) <= |s|
        || (|s| > 1 && !SecondAccepted(s[0], s[1]))
        || (|s| > 2 && !IsTail(s[2])))
  }

  /** The test the library's callers use: width one on a byte at or above RuneSelf. */
  predicate IsMalformed(s: bytes)
    requires s != []
  {
    DecodeRune(s).size == 1 && s[0] >= RUNE_SELF
  }

  /** utf8.ValidString. */
  predicate ValidString(s: bytes) {
    s == [] || (!IsMalformed(s) && ValidString(s[DecodeRune(s).size..]))
  }

  // ----- the decoder against the grammar

  /** A prefix is a character exactly when the decoder takes it; so the parse is unique. */
  lemma DecodesChars(s: bytes, k: int)
    requires s != []
    ensures StartsWithChar(s, k) <==> !IsMalformed(s) && k == DecodeRune(s).size
  {
    if 1 <= k <= UTF_MAX && k <= |s| {
      assert forall i :: 0 <= i < k ==> s[..k][i] == s[i];
    }
  }

  lemma {:induction false} ValidStringIsOctets(s: bytes)
    ensures ValidString(s) <==> IsOctets(s)
  {
    if s != [] {
      var n := DecodeRune(s).size;
      ValidStringIsOctets(s[n..]);
      DecodesChars(s, n);
      if IsOctets(s) {
        var k :| StartsWithChar(s, k) && IsOctets(s[k..]);
        DecodesChars(s, k);
      }
    }
  }

  /** Well-formed text can be joined. */
  lemma {:induction false} ValidAppend(a: bytes, b: bytes)
    requires ValidString(a)
    ensures ValidString(a + b) <==> ValidString(b)
    decreases |a|
  {
    if a == [] {
      assert a + b == b;
    } else {
      var n := DecodeRune(a).size;
      DecodeIsLocal(a, b);
      assert (a + b)[n..] == a[n..] + b;
      ValidAppend(a[n..], b);
    }
  }

  /** A well-formed first character is decoded alike whatever follows. */
  lemma DecodeIsLocal(a: bytes, b: bytes)
    requires a != [] && !IsMalformed(a)
    ensures !IsMalformed(a + b) && DecodeRune(a + b) == DecodeRune(a)
  {
    var n := DecodeRune(a).size;
    assert forall i :: 0 <= i < |a| ==> (a + b)[i] == a[i];
  }

  /** FullRune is false exactly on the proper non-empty prefixes of characters (and on nothing). */
  lemma NotFullIsProperPrefix(s: bytes)
    ensures s != [] && !FullRune(s) <==> (exists more: bytes :: more != [] && IsChar(s + more)) && s != []
  {
    if s != [] && !FullRune(s) {
      var more := Completion(s);
      assert forall i :: 0 <= i < |s| ==> (s + more)[i] == s[i];
      assert more != [] && IsChar(s + more);
    }
    if more: bytes :| s != [] && more != [] && IsChar(s + more) {
      assert forall i :: 0 <= i < |s| ==> (s + more)[i] == s[i];
    }
  }

  ghost function Completion(s: bytes): (more: bytes)
    requires s != [] && !FullRune(s)
    ensures more != []
  {
    var second: byte := if s[0] == 0xE0 || s[0] == 0xF0 then 0xA0 else 0x80;
    if |s| == 1 then
      if Needed(s[0]) == 2 then [second]
      else if Needed(s[0]) == 3 then [second, 0x80]
      else [second, 0x80, 0x80]
    else if |s| == 2 && Needed(s[0]) == 4 then [0x80, 0x80]
    else [0x80]
  }

  // ----- the decoder against the table of RFC 3629 section 3

  predicate IsScalar(rune: int) { 0 <= rune <= 0x10FFFF && !(0xD800 <= rune <= 0xDFFF) }

  /** The bytes of a character. */
  function Encode(rune: int): (c: bytes)
    requires IsScalar(rune)
  {
    if rune <= 0x7F then [rune]
    else if rune <= 0x7FF then [0xC0 + rune / 64, 0x80 + rune % 64]
    else if rune <= 0xFFFF then [0xE0 + rune / 4096, 0x80 + rune / 64 % 64, 0x80 + rune % 64]
    else [0xF0 + rune / 262144, 0x80 + rune / 4096 % 64, 0x80 + rune / 64 % 64, 0x80 + rune % 64]
  }

  /** The six-bit groups of a number. */
  lemma SixBits(rune: nat)
    ensures rune == rune / 64 * 64 + rune % 64
    ensures rune / 64 == rune / 4096 * 64 + rune / 64 % 64
    ensures rune / 4096 == rune / 262144 * 64 + rune / 4096 % 64
  {
  }

  lemma DecodeTwo(a: nat, b: nat, rest: bytes)
    requires 2 <= a < 32 && b < 64
    ensures DecodeRune([0xC0 + a, 0x80 + b] + rest) == Decoded(a * 64 + b, 2)
  {
    var s: bytes := [0xC0 + a, 0x80 + b] + rest;
    assert s[0] == 0xC0 + a && s[1] == 0x80 + b;
  }

  lemma DecodeThree(a: nat, b: nat, c: nat, rest: bytes)
    requires a < 16 && b < 64 && c < 64 && (a == 0 ==> b >= 32) && (a == 13 ==> b < 32)
    ensures DecodeRune([0xE0 + a, 0x80 + b, 0x80 + c] + rest) == Decoded(a * 4096 + b * 64 + c, 3)
  {
    var s: bytes := [0xE0 + a, 0x80 + b, 0x80 + c] + rest;
    assert s[0] == 0xE0 + a && s[1] == 0x80 + b && s[2] == 0x80 + c;
  }

  lemma DecodeFour(a: nat, b: nat, c: nat, d: nat, rest: bytes)
    requires a < 5 && b < 64 && c < 64 && d < 64 && (a == 0 ==> b >= 16) && (a == 4 ==> b < 16)
    ensures DecodeRune([0xF0 + a, 0x80 + b, 0x80 + c, 0x80 + d] + rest) == Decoded(a * 262144 + b * 4096 + c * 64 + d, 4)
  {
    var s: bytes := [0xF0 + a, 0x80 + b, 0x80 + c, 0x80 + d] + rest;
    assert s[0] == 0xF0 + a && s[1] == 0x80 + b && s[2] == 0x80 + c && s[3] == 0x80 + d;
  }

  /** Decoding undoes encoding, whatever follows. */
  lemma DecodeUndoesEncode(rune: int, rest: bytes)
    requires IsScalar(rune)
    ensures DecodeRune(Encode(rune) + rest) == Decoded(rune, |Encode(rune)|) && !IsMalformed(Encode(rune) + rest)
  {
    hide DecodeRune;
    SixBits(rune);
    if rune <= 0x7F {
    } else if rune <= 0x7FF {
      DecodeTwo(rune / 64, rune % 64, rest);
    } else if rune <= 0xFFFF {
      DecodeThree(rune / 4096, rune / 64 % 64, rune % 64, rest);
    } else {
      DecodeFour(rune / 262144, rune / 4096 % 64, rune / 64 % 64, rune % 64, rest);
    }
  }

  /** What no character starts is decoded as one byte of U+FFFD. */
  lemma MalformedIsReplaced(s: bytes)
    requires s != [] && IsMalformed(s)
    ensures DecodeRune(s) == Decoded(0xFFFD, 1)
  {
  }

  /** Every byte of a character but its first one is a continuation. */
  lemma EncodeShape(rune: int)
    requires IsScalar(rune)
    ensures var c := Encode(rune);
            && 1 <= |c| <= UTF_MAX && !IsTail(c[0]) && (|c| == 1 <==> c[0] < RUNE_SELF)
            && forall i :: 1 <= i < |c| ==> IsTail(c[i])
  {
    SixBits(rune);
  }

  /** Decoding backwards finds the same character at the end, whatever stands before it. */
  lemma DecodeLastUndoesEncode(before: bytes, rune: int)
    requires IsScalar(rune)
    ensures DecodeLastRune(before + Encode(rune)) == Decoded(rune, |Encode(rune)|)
  {
    hide DecodeRune, Encode;
    var c := Encode(rune);
    var s := before + c;
    EncodeShape(rune);
    DecodeUndoesEncode(rune, []);
    assert c + [] == c;
    assert forall i :: 0 <= i < |c| ==> s[|before| + i] == c[i];
    assert s[|before|..] == c;
    if |c| > 1 {
      LastStart(before, c, |c| - 1);
    }
  }

  lemma {:induction false} LastStart(before: bytes, c: bytes, k: nat)
    requires 1 <= k < |c| <= UTF_MAX && !IsTail(c[0]) && forall i :: 1 <= i < |c| ==> IsTail(c[i])
    ensures RuneStartBefore(before + c, |before| + k, Max(0, |before| + |c| - UTF_MAX)) == |before|
  {
    assert (before + c)[|before| + k - 1] == c[k - 1];
    if k > 1 {
      LastStart(before, c, k - 1);
    }
  }
}
