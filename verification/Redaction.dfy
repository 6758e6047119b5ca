/** Replacing spans by tokens and restoring them (ext/spans.go, ext/token_vault.go, ext/pii_masking.go). */
module Redaction {
  import opened Wrappers
  import opened Sequences
  import opened Utf8
  import opened PiiSpans
  import opened TokenVault

  // ----- the token pattern

  /** The shape that restoring looks for: the prefix, at least three token characters with an inner underscore, a bracket. */
  ghost predicate IsTokenShape(t: bytes) {
    && |PREFIX| + 4 <= |t| && PREFIX <= t && t[|t| - 1] == CLOSE
    && (forall i :: |PREFIX| <= i < |t| - 1 ==> TokenByte(t[i]))
    && exists p :: InnerUnderscore(t, p)
  }

  predicate InnerUnderscore(t: bytes, p: int) {
    |PREFIX| < p < |t| - 2 && t[p] == UNDERSCORE
  }

  function TokenRun(s: bytes, i: nat): (j: nat)
    requires i <= |s|
    ensures i <= j <= |s| && (forall k :: i <= k < j ==> TokenByte(s[k])) && (j < |s| ==> !TokenByte(s[j]))
    decreases |s| - i
  {
    if i < |s| && TokenByte(s[i]) then TokenRun(s, i + 1) else i
  }

  predicate HasUnderscore(s: bytes, from: int, to: int) {
    exists p :: from <= p < to && 0 <= p < |s| && s[p] == UNDERSCORE
  }

  /** The length of the match at the start of s, as the regular expression finds it. */
  function MatchLength(s: bytes): (n: Option<nat>)
    ensures n.Some? ==> 0 < n.value <= |s|
  {
    if !(PREFIX <= s) then None
    else
      var j := TokenRun(s, |PREFIX|);
      if j < |s| && s[j] == CLOSE && HasUnderscore(s, |PREFIX| + 1, j - 1) then Some(j + 1) else None
  }

  /** The match is exactly the prefix of token shape; there is at most one. */
  lemma MatchIsTokenShape(s: bytes, n: nat)
    ensures MatchLength(s) == Some(n) <==> n <= |s| && IsTokenShape(s[..n])
  {
    if MatchLength(s) == Some(n) {
      assert s[..n][..|PREFIX|] == s[..|PREFIX|];
      var p :| |PREFIX| + 1 <= p < n - 2 && s[p] == UNDERSCORE;
      assert InnerUnderscore(s[..n], p);
    }
    if n <= |s| && IsTokenShape(s[..n]) {
      var t := s[..n];
      var p :| InnerUnderscore(t, p);
      assert s[..|PREFIX|] == t[..|PREFIX|];
      assert s[n - 1] == t[n - 1] && s[p] == t[p];
      var j := TokenRun(s, |PREFIX|);
      assert forall i :: |PREFIX| <= i < n - 1 ==> TokenByte(s[i]) by {
        forall i | |PREFIX| <= i < n - 1
          ensures TokenByte(s[i])
        {
          assert t[i] == s[i];
        }
      }
      assert j == n - 1;
    }
  }

  /** Every token the store issues has that shape, whatever the namespace. */
  lemma TokensHaveShape(ns: bytes, n: nat)
    requires IsNamespace(ns)
    ensures IsTokenShape(Token(ns, n))
  {
    var t := Token(ns, n);
    DecimalIsNumeral(n);
    var p := |PREFIX| + |ns|;
    assert t[..|PREFIX|] == PREFIX;
    assert forall i :: 0 <= i < |ns| ==> t[|PREFIX| + i] == ns[i];
    assert forall i :: 0 <= i < |Decimal(n)| ==> t[p + 1 + i] == Decimal(n)[i];
    forall i | |PREFIX| <= i < |t| - 1
      ensures TokenByte(t[i])
    {
      if i < p {
        assert t[i] == ns[i - |PREFIX|];
      } else if i > p {
        assert t[i] == Decimal(n)[i - p - 1];
      }
    }
    assert InnerUnderscore(t, p);
  }

  // ----- restoring

  /** UnredactText: leftmost matches, one after the other; restored text is not looked at again. */
  function Unredact(s: bytes, restores: map<bytes, bytes>): bytes
    decreases |s|
  {
    if s == [] then []
    else
      var n := MatchLength(s);
      if n.Some? then Restored(s[..n.value], restores) + Unredact(s[n.value..], restores)
      else [s[0]] + Unredact(s[1..], restores)
  }

  function Restored(token: bytes, restores: map<bytes, bytes>): bytes {
    if token in restores then restores[token] else token
  }

  /** No part of s is a token that would be restored. */
  ghost predicate NoKnownToken(s: bytes, restores: map<bytes, bytes>) {
    forall i, j :: 0 <= i <= j <= |s| && IsTokenShape(s[i..j]) ==> s[i..j] !in restores
  }

  /** Inside a token, past its first byte, stands no opening bracket. */
  lemma BracketInside(t: bytes, k: nat)
    requires IsTokenShape(t) && 0 < k
    ensures k < |t| ==> t[k] != OPEN
  {
    assert k < |PREFIX| ==> t[k] == PREFIX[k];
  }

  /** A match that starts in a piece ends in it: what follows begins with a bracket no token has inside. */
  lemma MatchStaysInside(piece: bytes, rest: bytes)
    requires piece != [] && (rest == [] || rest[0] == OPEN)
    ensures MatchLength(piece + rest) == MatchLength(piece)
  {
    hide MatchLength;
    var s := piece + rest;
    if MatchLength(s).Some? {
      var n := MatchLength(s).value;
      MatchIsTokenShape(s, n);
      BracketInside(s[..n], |piece|);
      assert n <= |piece|;
      assert s[..n] == piece[..n];
      MatchIsTokenShape(piece, n);
    } else if MatchLength(piece).Some? {
      var n := MatchLength(piece).value;
      assert s[..n] == piece[..n];
      MatchIsTokenShape(piece, n);
      MatchIsTokenShape(s, n);
    }
  }

  /** Restoring works piece by piece where the next piece starts with a bracket. */
  lemma {:induction false} SplitsAtBracket(piece: bytes, rest: bytes, restores: map<bytes, bytes>)
    requires rest == [] || rest[0] == OPEN
    ensures Unredact(piece + rest, restores) == Unredact(piece, restores) + Unredact(rest, restores)
    decreases |piece|
  {
    hide MatchLength, Restored, Unredact;
    if piece == [] {
      assert piece + rest == rest;
      NothingToRestore(restores);
    } else {
      var n := StepLength(piece);
      MatchStaysInside(piece, rest);
      StepOf(piece, restores);
      StepOf(piece + rest, restores);
      assert (piece + rest)[..n] == piece[..n] && (piece + rest)[n..] == piece[n..] + rest;
      SplitsAtBracket(piece[n..], rest, restores);
      Regroup(Step(piece, restores), Unredact(piece[n..], restores), Unredact(rest, restores));
    }
  }

  /** How far one turn of restoring goes, and what it puts there. */
  function StepLength(s: bytes): (n: nat)
    requires s != []
    ensures 0 < n <= |s|
  {
    if MatchLength(s).Some? then MatchLength(s).value else 1
  }

  function Step(s: bytes, restores: map<bytes, bytes>): bytes
    requires s != []
  {
    if MatchLength(s).Some? then Restored(s[..StepLength(s)], restores) else s[..1]
  }

  lemma StepOf(s: bytes, restores: map<bytes, bytes>)
    requires s != []
    ensures Unredact(s, restores) == Step(s, restores) + Unredact(s[StepLength(s)..], restores)
  {
    hide MatchLength, Restored;
    assert s[..1] == [s[0]];
  }

  /** Text without known tokens comes through unchanged. */
  lemma {:induction false} PieceThrough(piece: bytes, restores: map<bytes, bytes>)
    requires NoKnownToken(piece, restores)
    ensures Unredact(piece, restores) == piece
    decreases |piece|
  {
    hide IsTokenShape, MatchLength, Unredact;
    if piece == [] {
      NothingToRestore(restores);
    } else {
      var n := StepLength(piece);
      StepOf(piece, restores);
      if MatchLength(piece).Some? {
        MatchIsTokenShape(piece, n);
        assert piece[0..n] == piece[..n];
      }
      NoKnownTail(piece, n, restores);
      PieceThrough(piece[n..], restores);
      assert piece == piece[..n] + piece[n..];
    }
  }

  lemma NoKnownTail(s: bytes, n: nat, restores: map<bytes, bytes>)
    requires NoKnownToken(s, restores) && n <= |s|
    ensures NoKnownToken(s[n..], restores)
  {
    forall i, j | 0 <= i <= j <= |s| - n && IsTokenShape(s[n..][i..j])
      ensures s[n..][i..j] !in restores
    {
      assert s[n..][i..j] == s[n + i..n + j];
    }
  }

  /** A token gives way to what it stands for. */
  lemma TokenThrough(token: bytes, rest: bytes, restores: map<bytes, bytes>)
    requires IsTokenShape(token)
    ensures Unredact(token + rest, restores) == Restored(token, restores) + Unredact(rest, restores)
  {
    var s := token + rest;
    assert s[..|token|] == token && s[|token|..] == rest;
    MatchIsTokenShape(s, |token|);
  }

  lemma NothingToRestore(restores: map<bytes, bytes>)
    ensures Unredact([], restores) == []
  {
  }

  /** One literal token between texts that hold no known one: restoring leaves the whole alone exactly if the token stands for itself. */
  lemma LiteralTokenIff(before: bytes, token: bytes, after: bytes, restores: map<bytes, bytes>)
    requires IsTokenShape(token) && token in restores
    requires NoKnownToken(before, restores) && NoKnownToken(after, restores)
    ensures Unredact(before + token + after, restores) == before + restores[token] + after
    ensures Unredact(before + token + after, restores) == before + token + after <==> restores[token] == token
  {
    hide Unredact, NoKnownToken;
    StartsWithBracket(token, after);
    SplitsAtBracket(before, token + after, restores);
    TokenThrough(token, after, restores);
    PieceThrough(before, restores);
    PieceThrough(after, restores);
    Regroup(before, token, after);
    Regroup(before, restores[token], after);
    SameMiddle(before, restores[token], token, after);
  }

  lemma SameMiddle(a: bytes, x: bytes, y: bytes, b: bytes)
    ensures a + x + b == a + y + b <==> x == y
  {
    if a + x + b == a + y + b {
      assert |x| == |y|;
      assert (a + x + b)[|a|..|a| + |x|] == x && (a + y + b)[|a|..|a| + |y|] == y;
    }
  }

  // ----- replacing

  predicate InOrder(spans: seq<Span>, limit: nat) {
    && Disjoint(spans)
    && forall i :: 0 <= i < |spans| ==> spans[i].start <= spans[i].end <= limit
  }

  /** The end of the last of the first i spans. */
  function EndOf(spans: seq<Span>, i: nat): nat
    requires i <= |spans|
  {
    if i == 0 then 0 else spans[i - 1].end
  }

  lemma SpanFits(spans: seq<Span>, i: nat, limit: nat)
    requires i < |spans| && InOrder(spans, limit)
    ensures EndOf(spans, i) <= spans[i].start <= spans[i].end == EndOf(spans, i + 1) <= limit
  {
  }

  /** What stands before the i-th span, behind the one before it; the last gap ends the input. */
  function Gap(input: bytes, spans: seq<Span>, i: nat): bytes
    requires i <= |spans| && InOrder(spans, |input|)
  {
    GapFits(spans, i, |input|);
    input[EndOf(spans, i)..GapEnd(spans, i, |input|)]
  }

  function GapEnd(spans: seq<Span>, i: nat, limit: nat): nat
    requires i <= |spans|
  {
    if i < |spans| then spans[i].start else limit
  }

  lemma GapFits(spans: seq<Span>, i: nat, limit: nat)
    requires i <= |spans| && InOrder(spans, limit)
    ensures EndOf(spans, i) <= GapEnd(spans, i, limit) <= limit
  {
  }

  function TextOf(input: bytes, spans: seq<Span>, i: nat): bytes
    requires i < |spans| && InOrder(spans, |input|)
  {
    input[spans[i].start..spans[i].end]
  }

  /** The input up to the i-th span's end, with those spans replaced. */
  function Woven(input: bytes, spans: seq<Span>, tokens: seq<bytes>, i: nat): bytes
    requires i <= |spans| && i <= |tokens| && InOrder(spans, |input|)
  {
    if i == 0 then [] else Woven(input, spans, tokens, i - 1) + Gap(input, spans, i - 1) + tokens[i - 1]
  }

  function Replaced(input: bytes, spans: seq<Span>, tokens: seq<bytes>): bytes
    requires |tokens| == |spans| && InOrder(spans, |input|)
  {
    Woven(input, spans, tokens, |spans|) + Gap(input, spans, |spans|)
  }

  /** The input up to the i-th span's end, with only the gaps restored. */
  function Reunited(input: bytes, spans: seq<Span>, restores: map<bytes, bytes>, i: nat): bytes
    requires i <= |spans| && InOrder(spans, |input|)
  {
    if i == 0 then []
    else Reunited(input, spans, restores, i - 1) + Unredact(Gap(input, spans, i - 1), restores) + TextOf(input, spans, i - 1)
  }

  /** The i-th token has the shape and restores to the i-th span's text. */
  ghost predicate Stands(input: bytes, spans: seq<Span>, tokens: seq<bytes>, restores: map<bytes, bytes>, i: nat)
    requires i < |spans| && i < |tokens| && InOrder(spans, |input|)
  {
    IsTokenShape(tokens[i]) && tokens[i] in restores && restores[tokens[i]] == TextOf(input, spans, i)
  }

  ghost predicate AllStand(input: bytes, spans: seq<Span>, tokens: seq<bytes>, restores: map<bytes, bytes>, n: nat)
    requires n <= |spans| && n <= |tokens| && InOrder(spans, |input|)
  {
    forall k :: 0 <= k < n ==> Stands(input, spans, tokens, restores, k)
  }

  lemma {:induction false} WovenRestores(input: bytes, spans: seq<Span>, tokens: seq<bytes>, restores: map<bytes, bytes>, i: nat, rest: bytes)
    requires |tokens| == |spans| && InOrder(spans, |input|) && i <= |spans|
    requires AllStand(input, spans, tokens, restores, i)
    ensures Unredact(Woven(input, spans, tokens, i) + rest, restores) == Reunited(input, spans, restores, i) + Unredact(rest, restores)
    decreases i
  {
    hide *;
    if i == 0 {
      NothingReunited(input, spans, tokens, restores, rest);
    } else {
      var gap, token, text := Gap(input, spans, i - 1), tokens[i - 1], TextOf(input, spans, i - 1);
      StandsLast(input, spans, tokens, restores, i);
      WovenLast(input, spans, tokens, restores, i);
      Regroup3(Woven(input, spans, tokens, i - 1), gap, token, rest);
      WovenRestores(input, spans, tokens, restores, i - 1, gap + (token + rest));
      StartsWithBracket(token, rest);
      SplitsAtBracket(gap, token + rest, restores);
      TokenThrough(token, rest, restores);
      Regroup3(Reunited(input, spans, restores, i - 1), Unredact(gap, restores), text, Unredact(rest, restores));
    }
  }

  lemma NothingReunited(input: bytes, spans: seq<Span>, tokens: seq<bytes>, restores: map<bytes, bytes>, rest: bytes)
    requires |tokens| == |spans| && InOrder(spans, |input|)
    ensures Unredact(Woven(input, spans, tokens, 0) + rest, restores) == Reunited(input, spans, restores, 0) + Unredact(rest, restores)
  {
    hide Unredact;
    assert Woven(input, spans, tokens, 0) + rest == rest;
    assert [] + Unredact(rest, restores) == Unredact(rest, restores);
  }

  lemma StandsLast(input: bytes, spans: seq<Span>, tokens: seq<bytes>, restores: map<bytes, bytes>, i: nat)
    requires 0 < i <= |tokens| == |spans| && InOrder(spans, |input|) && AllStand(input, spans, tokens, restores, i)
    ensures AllStand(input, spans, tokens, restores, i - 1)
    ensures IsTokenShape(tokens[i - 1]) && Restored(tokens[i - 1], restores) == TextOf(input, spans, i - 1)
  {
    hide IsTokenShape, TextOf, InOrder;
    assert Stands(input, spans, tokens, restores, i - 1);
  }

  lemma WovenLast(input: bytes, spans: seq<Span>, tokens: seq<bytes>, restores: map<bytes, bytes>, i: nat)
    requires 0 < i <= |tokens| == |spans| && InOrder(spans, |input|)
    ensures Woven(input, spans, tokens, i) == Woven(input, spans, tokens, i - 1) + Gap(input, spans, i - 1) + tokens[i - 1]
    ensures Reunited(input, spans, restores, i) ==
            Reunited(input, spans, restores, i - 1) + Unredact(Gap(input, spans, i - 1), restores) + TextOf(input, spans, i - 1)
  {
    hide Gap, TextOf, InOrder, Unredact;
  }

  lemma Regroup3(a: bytes, b: bytes, c: bytes, d: bytes)
    ensures a + b + c + d == a + (b + (c + d))
  {
  }

  lemma StartsWithBracket(token: bytes, rest: bytes)
    requires IsTokenShape(token)
    ensures token + rest != [] && (token + rest)[0] == OPEN
  {
    assert token[0] == PREFIX[0];
  }

  /** For every input: restoring puts each span's text back in its place, and otherwise restores the gaps one by one. */
  lemma RestoresPieceByPiece(input: bytes, spans: seq<Span>, tokens: seq<bytes>, restores: map<bytes, bytes>)
    requires |tokens| == |spans| && InOrder(spans, |input|)
    requires AllStand(input, spans, tokens, restores, |spans|)
    ensures Unredact(Replaced(input, spans, tokens), restores) ==
            Reunited(input, spans, restores, |spans|) + Unredact(Gap(input, spans, |spans|), restores)
  {
    hide Unredact, AllStand, Woven, Gap, Reunited;
    WovenRestores(input, spans, tokens, restores, |spans|, Gap(input, spans, |spans|));
  }

  predicate GapStays(input: bytes, spans: seq<Span>, restores: map<bytes, bytes>, i: nat)
    requires i <= |spans| && InOrder(spans, |input|)
  {
    Unredact(Gap(input, spans, i), restores) == Gap(input, spans, i)
  }

  lemma {:induction false} ReunitedUpTo(input: bytes, spans: seq<Span>, restores: map<bytes, bytes>, i: nat)
    requires i <= |spans| && InOrder(spans, |input|)
    requires forall k: nat :: k < i ==> GapStays(input, spans, restores, k)
    ensures EndOf(spans, i) <= |input| && Reunited(input, spans, restores, i) == input[..EndOf(spans, i)]
  {
    hide Unredact, InOrder;
    if i > 0 {
      hide Reunited, Gap, TextOf;
      SpanFits(spans, i - 1, |input|);
      PartsAre(input, spans, i - 1);
      ReunitedStep(input, spans, restores, i);
      ReunitedUpTo(input, spans, restores, i - 1);
      assert GapStays(input, spans, restores, i - 1);
      ThreePieces(input, EndOf(spans, i - 1), spans[i - 1].start, spans[i - 1].end);
    }
  }

  lemma ReunitedStep(input: bytes, spans: seq<Span>, restores: map<bytes, bytes>, i: nat)
    requires 0 < i <= |spans| && InOrder(spans, |input|)
    ensures Reunited(input, spans, restores, i) ==
            Reunited(input, spans, restores, i - 1) + Unredact(Gap(input, spans, i - 1), restores) + TextOf(input, spans, i - 1)
  {
  }

  lemma ThreePieces(s: bytes, a: nat, b: nat, c: nat)
    requires a <= b <= c <= |s|
    ensures s[..a] + s[a..b] + s[b..c] == s[..c]
  {
  }

  /** With one gap left open, everything around it is the input again. */
  lemma {:induction false} ReunitedAround(input: bytes, spans: seq<Span>, restores: map<bytes, bytes>, k: nat, i: nat)
    requires k < i <= |spans| && InOrder(spans, |input|)
    requires forall g: nat :: g < i && g != k ==> GapStays(input, spans, restores, g)
    ensures EndOf(spans, k) <= spans[k].start <= EndOf(spans, i) <= |input|
    ensures Reunited(input, spans, restores, i) ==
            input[..EndOf(spans, k)] + Unredact(Gap(input, spans, k), restores) + input[spans[k].start..EndOf(spans, i)]
    decreases i
  {
    hide Unredact, InOrder;
    SpanFits(spans, i - 1, |input|);
    SpanFits(spans, k, |input|);
    if i == k + 1 {
      ReunitedUpTo(input, spans, restores, k);
    } else {
      ReunitedAround(input, spans, restores, k, i - 1);
      assert GapStays(input, spans, restores, i - 1);
      LongerTail(input, input[..EndOf(spans, k)] + Unredact(Gap(input, spans, k), restores),
                 spans[k].start, EndOf(spans, i - 1), spans[i - 1].start, spans[i - 1].end);
    }
  }

  lemma LongerTail(s: bytes, front: bytes, a: nat, b: nat, c: nat, d: nat)
    requires a <= b <= c <= d <= |s|
    ensures front + s[a..b] + s[b..c] + s[c..d] == front + s[a..d]
  {
    assert s[a..b] + s[b..c] + s[c..d] == s[a..d];
  }

  /** With all other gaps left alone by restoring, what comes back differs from the input in gap k only. */
  lemma RestoresAround(input: bytes, spans: seq<Span>, tokens: seq<bytes>, restores: map<bytes, bytes>, k: nat)
    requires |tokens| == |spans| && InOrder(spans, |input|) && k <= |spans|
    requires AllStand(input, spans, tokens, restores, |spans|)
    requires forall g: nat :: g <= |spans| && g != k ==> GapStays(input, spans, restores, g)
    ensures EndOf(spans, k) <= GapEnd(spans, k, |input|) <= |input|
    ensures Unredact(Replaced(input, spans, tokens), restores) ==
            input[..EndOf(spans, k)] + Unredact(Gap(input, spans, k), restores) + input[GapEnd(spans, k, |input|)..]
  {
    hide Unredact, AllStand, Replaced, Reunited, InOrder, Gap, GapStays;
    RestoresPieceByPiece(input, spans, tokens, restores);
    GapFits(spans, k, |input|);
    var n := |spans|;
    if k == n {
      ReunitedUpTo(input, spans, restores, n);
      NothingBehind(input, input[..EndOf(spans, n)] + Unredact(Gap(input, spans, n), restores));
    } else {
      ReunitedAround(input, spans, restores, k, n);
      LastGap(input, spans, restores);
      LastPiece(input, input[..EndOf(spans, k)] + Unredact(Gap(input, spans, k), restores), spans[k].start, EndOf(spans, n));
    }
  }

  lemma NothingBehind(s: bytes, front: bytes)
    ensures front + s[|s|..] == front
  {
  }

  lemma LastPiece(s: bytes, front: bytes, a: nat, b: nat)
    requires a <= b <= |s|
    ensures front + s[a..b] + s[b..] == front + s[a..]
  {
    assert s[a..b] + s[b..] == s[a..];
  }

  lemma LastGap(input: bytes, spans: seq<Span>, restores: map<bytes, bytes>)
    requires InOrder(spans, |input|) && GapStays(input, spans, restores, |spans|)
    ensures EndOf(spans, |spans|) <= |input|
    ensures Unredact(Gap(input, spans, |spans|), restores) == input[EndOf(spans, |spans|)..]
  {
    hide Unredact;
  }

  /**
   * When the round trip holds: if restoring changes no gap, other than perhaps gap k, the original comes back byte
   * for byte exactly if it does not change gap k either. Tokens inside the replaced spans do no harm.
   */
  lemma RoundTripIff(input: bytes, spans: seq<Span>, tokens: seq<bytes>, restores: map<bytes, bytes>, k: nat)
    requires |tokens| == |spans| && InOrder(spans, |input|) && k <= |spans|
    requires AllStand(input, spans, tokens, restores, |spans|)
    requires forall g: nat :: g <= |spans| && g != k ==> GapStays(input, spans, restores, g)
    ensures Unredact(Replaced(input, spans, tokens), restores) == input <==> GapStays(input, spans, restores, k)
  {
    hide Unredact, AllStand, Replaced, InOrder;
    RestoresAround(input, spans, tokens, restores, k);
    AroundGap(input, EndOf(spans, k), GapEnd(spans, k, |input|), Unredact(Gap(input, spans, k), restores));
  }

  lemma AroundGap(s: bytes, a: nat, b: nat, gap: bytes)
    requires a <= b <= |s|
    ensures s[..a] + gap + s[b..] == s <==> gap == s[a..b]
  {
    assert s[..a] + s[a..b] + s[b..] == s;
    SameMiddle(s[..a], gap, s[a..b], s[b..]);
  }

  /** No gap holds a token that would be restored. */
  ghost predicate GapsUnknown(input: bytes, spans: seq<Span>, restores: map<bytes, bytes>)
    requires InOrder(spans, |input|)
  {
    forall i: nat :: i <= |spans| ==> NoKnownToken(Gap(input, spans, i), restores)
  }

  /**
   * Restoring undoes replacing: when every span was replaced by a token for its text, and nothing between the spans
   * is a token of the store, the original comes back byte for byte.
   */
  lemma RoundTrip(input: bytes, spans: seq<Span>, tokens: seq<bytes>, restores: map<bytes, bytes>)
    requires |tokens| == |spans| && InOrder(spans, |input|)
    requires AllStand(input, spans, tokens, restores, |spans|)
    requires GapsUnknown(input, spans, restores)
    ensures Unredact(Replaced(input, spans, tokens), restores) == input
  {
    hide Unredact, NoKnownToken, AllStand, Replaced, InOrder, Gap;
    forall g: nat | g <= |spans|
      ensures GapStays(input, spans, restores, g)
    {
      PieceThrough(Gap(input, spans, g), restores);
    }
    RoundTripIff(input, spans, tokens, restores, |spans|);
  }

  /** In particular for any input in which nothing has the shape of a token. */
  lemma NoShapeNoKnownToken(input: bytes, spans: seq<Span>, restores: map<bytes, bytes>)
    requires InOrder(spans, |input|)
    requires forall i, j :: 0 <= i <= j <= |input| ==> !IsTokenShape(input[i..j])
    ensures GapsUnknown(input, spans, restores)
  {
    forall g: nat | g <= |spans|
      ensures NoKnownToken(Gap(input, spans, g), restores)
    {
      var from := EndOf(spans, g);
      var to := if g < |spans| then spans[g].start else |input|;
      hide IsTokenShape;
      forall i, j | 0 <= i <= j <= to - from
        ensures !IsTokenShape(input[from..to][i..j])
      {
        PartOfPart(input, from, to, i, j);
      }
      assert Gap(input, spans, g) == input[from..to];
    }
  }

  /** So any text without a token-shaped part survives replacing and restoring, whatever the store holds. */
  lemma PlainTextRoundTrip(input: bytes, spans: seq<Span>, tokens: seq<bytes>, restores: map<bytes, bytes>)
    requires |tokens| == |spans| && InOrder(spans, |input|)
    requires AllStand(input, spans, tokens, restores, |spans|)
    requires forall i, j :: 0 <= i <= j <= |input| ==> !IsTokenShape(input[i..j])
    ensures Unredact(Replaced(input, spans, tokens), restores) == input
  {
    hide *;
    NoShapeNoKnownToken(input, spans, restores);
    RoundTrip(input, spans, tokens, restores);
  }

  lemma PartOfPart(s: bytes, a: nat, b: nat, i: nat, j: nat)
    requires a <= b <= |s| && i <= j <= b - a
    ensures s[a..b][i..j] == s[a + i..a + j]
  {
    assert forall k :: 0 <= k < j - i ==> s[a..b][i..j][k] == s[a..b][i + k] == s[a + (i + k)] == s[a + i..a + j][k];
  }

  /**
   * The proviso is needed: with one literal copy of an issued token in one gap, and no known token in the others,
   * the original comes back exactly if that token was issued for itself, which a masking store refuses to use.
   */
  lemma LiteralTokenIsRestored(input: bytes, spans: seq<Span>, tokens: seq<bytes>, restores: map<bytes, bytes>, k: nat,
                               before: bytes, token: bytes, after: bytes)
    requires |tokens| == |spans| && InOrder(spans, |input|) && k <= |spans|
    requires AllStand(input, spans, tokens, restores, |spans|)
    requires forall g: nat :: g <= |spans| && g != k ==> NoKnownToken(Gap(input, spans, g), restores)
    requires Gap(input, spans, k) == before + token + after && IsTokenShape(token) && token in restores
    requires NoKnownToken(before, restores) && NoKnownToken(after, restores)
    ensures Unredact(Replaced(input, spans, tokens), restores) == input <==> restores[token] == token
  {
    hide Unredact, NoKnownToken, AllStand, Replaced, InOrder, IsTokenShape, Gap;
    forall g: nat | g <= |spans| && g != k
      ensures GapStays(input, spans, restores, g)
    {
      PieceThrough(Gap(input, spans, g), restores);
    }
    RoundTripIff(input, spans, tokens, restores, k);
    LiteralTokenIff(before, token, after, restores);
  }

  /** For example a text that is nothing but a token issued for another text. */
  lemma IssuedTokenAsInput(ns: bytes, n: nat, original: bytes)
    requires IsNamespace(ns) && original != Token(ns, n)
    ensures Replaced(Token(ns, n), [], []) == Token(ns, n)
    ensures Unredact(Token(ns, n), map[Token(ns, n) := original]) == original != Token(ns, n)
  {
    TokensHaveShape(ns, n);
    TokenThrough(Token(ns, n), [], map[Token(ns, n) := original]);
    assert Token(ns, n) + [] == Token(ns, n);
    assert original + [] == original;
  }

  // ----- the operations

  /** What a vault of the host's own answers; a missing one counts as failing. */
  datatype StoreAnswer = Issued(token: bytes) | StoreFailed | StorePanicked

  datatype StoreError = Stored | Failed | Panicked | EmptyToken | IdentityToken

  /** No vault, the one of this package, or any other, which may answer each call as it likes. */
  datatype Vault = NoVault(replacement: bytes) | InMemory(memory: InMemoryTokenVault) | HostVault(store: (nat, bytes) -> StoreAnswer)

  ghost predicate ValidVault(v: Vault)
    reads if v.InMemory? then {v.memory} else {}
  {
    v.InMemory? ==> v.memory.Valid()
  }

  ghost function RestoresOf(v: Vault): map<bytes, bytes>
    reads if v.InMemory? then {v.memory} else {}
  {
    if v.InMemory? then v.memory.restores else map[]
  }

  /** A configured vault never degrades silently: failures, panics, empty and identity tokens are faults. */
  function Screened(answer: StoreAnswer, original: bytes): StoreError {
    match answer
    case StoreFailed => Failed
    case StorePanicked => Panicked
    case Issued(token) => if token == [] then EmptyToken else if token == original then IdentityToken else Stored
  }

  /** Only a token that is neither empty nor the text itself is accepted; anything else names what went wrong. */
  lemma ScreenedIff(answer: StoreAnswer, original: bytes)
    ensures Screened(answer, original) == Stored <==> answer.Issued? && answer.token != [] && answer.token != original
    ensures Screened(answer, original) == IdentityToken <==> answer == Issued(original) && original != []
    ensures Screened(answer, original) == EmptyToken <==> answer == Issued([])
    ensures Screened(answer, original) == Failed <==> answer.StoreFailed?
    ensures Screened(answer, original) == Panicked <==> answer.StorePanicked?
  {
  }

  /** The token under which the in-memory vault holds this text in this namespace. */
  ghost predicate HoldsUnder(m: InMemoryTokenVault, upper: bytes -> bytes, namespace: bytes, text: bytes, token: bytes)
    reads m
  {
    var e := Entry(Normalized(upper, namespace), text);
    e in m.issued && token == Token(e.ns, m.issued[e])
  }

  /** What a call for this text comes to: the fixed replacement, the host's screened answer, or the token issued for it. */
  ghost predicate Answered(v: Vault, k: nat, upper: bytes -> bytes, namespace: bytes, original: bytes, token: bytes, err: StoreError)
    reads if v.InMemory? then {v.memory} else {}
  {
    && (err != Stored ==> token == [])
    && match v
       case NoVault(replacement) => token == replacement && err == Stored
       case HostVault(store) =>
         err == Screened(store(k, original), original) && (err == Stored ==> store(k, original) == Issued(token))
       case InMemory(memory) =>
         exists issued :: HoldsUnder(memory, upper, namespace, original, issued)
                          && IsTokenShape(issued) && issued in memory.restores && memory.restores[issued] == original
                          && err == (if issued == original then IdentityToken else Stored)
                          && (err == Stored ==> token == issued)
  }

  /** A call of the in-memory vault. */
  method MemoryToken(memory: InMemoryTokenVault, upper: bytes -> bytes, namespace: bytes, original: bytes) returns (token: bytes)
    requires memory.Valid()
    modifies memory
    ensures memory.Valid() && Keeps(old(memory.restores), memory.restores)
    ensures HoldsUnder(memory, upper, namespace, original, token) && IsTokenShape(token) && token != []
    ensures token in memory.restores && memory.restores[token] == original
  {
    hide Token, Keeps, IsTokenShape, IsNamespace, TokenVault.Consistent;
    token := memory.Store(upper, namespace, original);
    KeepsIs(old(memory.restores), memory.restores);
    NormalizedIsNamespace(upper, namespace);
    ghost var e := Entry(Normalized(upper, namespace), original);
    TokensHaveShape(e.ns, memory.issued[e]);
    ShapesAreNotEmpty(token);
  }

  lemma AnsweredByMemory(v: Vault, k: nat, upper: bytes -> bytes, namespace: bytes, original: bytes, token: bytes)
    requires v.InMemory? && HoldsUnder(v.memory, upper, namespace, original, token) && IsTokenShape(token)
    requires token in v.memory.restores && v.memory.restores[token] == original
    ensures if token == original then Answered(v, k, upper, namespace, original, [], IdentityToken)
            else Answered(v, k, upper, namespace, original, token, Stored)
  {
  }

  lemma VaultIs(v: Vault)
    requires v.InMemory?
    ensures ValidVault(v) <==> v.memory.Valid()
    ensures RestoresOf(v) == v.memory.restores
  {
  }

  /** storeRedaction, as the k-th call of a replacement. */
  method StoreRedaction(vault: Vault, k: nat, upper: bytes -> bytes, namespace: bytes, original: bytes)
    returns (token: bytes, err: StoreError)
    requires ValidVault(vault)
    modifies if vault.InMemory? then {vault.memory} else {}
    ensures ValidVault(vault) && Keeps(old(RestoresOf(vault)), RestoresOf(vault))
    ensures Answered(vault, k, upper, namespace, original, token, err)
  {
    match vault
    case NoVault(replacement) =>
      return replacement, Stored;
    case InMemory(memory) =>
      hide *;
      VaultIs(vault);
      token := MemoryToken(memory, upper, namespace, original);
      VaultIs(vault);
      if token == [] {
        assert false; // an issued token has a shape
      }
      AnsweredByMemory(vault, k, upper, namespace, original, token);
      if token == original {
        return [], IdentityToken;
      }
      return token, Stored;
    case HostVault(store) =>
      var answer := store(k, original);
      err := Screened(answer, original);
      token := if err == Stored then answer.token else [];
  }

  lemma ShapesAreNotEmpty(token: bytes)
    requires IsTokenShape(token)
    ensures token != []
  {
  }

  /** What could be restored before still can be, to the same text. */
  predicate Keeps(before: map<bytes, bytes>, after: map<bytes, bytes>) {
    forall t :: t in before ==> t in after && after[t] == before[t]
  }

  lemma KeepsIs(before: map<bytes, bytes>, after: map<bytes, bytes>)
    ensures (forall t :: t in before ==> t in after && after[t] == before[t]) <==> Keeps(before, after)
    ensures Keeps(before, before)
  {
  }

  lemma KeepsOn(a: map<bytes, bytes>, b: map<bytes, bytes>, c: map<bytes, bytes>)
    requires Keeps(a, b) && Keeps(b, c)
    ensures Keeps(a, c)
  {
  }

  /** The vault served the i-th span: with its fixed replacement, a restorable token, or the host's answer to call i. */
  ghost predicate Served(v: Vault, upper: bytes -> bytes, namespace: bytes,
                         restores: map<bytes, bytes>, input: bytes, spans: seq<Span>, tokens: seq<bytes>, i: nat)
    requires i < |spans| && i < |tokens| && InOrder(spans, |input|)
  {
    match v
    case NoVault(replacement) => tokens[i] == replacement
    case InMemory(_) =>
      && Stands(input, spans, tokens, restores, i) && tokens[i] != TextOf(input, spans, i)
      && exists n: nat :: tokens[i] == Token(Normalized(upper, namespace), n)
    case HostVault(store) =>
      store(i, TextOf(input, spans, i)) == Issued(tokens[i]) && Screened(Issued(tokens[i]), TextOf(input, spans, i)) == Stored
  }

  ghost predicate AllServed(v: Vault, upper: bytes -> bytes, namespace: bytes,
                            restores: map<bytes, bytes>, input: bytes, spans: seq<Span>, tokens: seq<bytes>, n: nat)
    requires n <= |spans| && n <= |tokens| && InOrder(spans, |input|)
  {
    forall i: nat :: i < n ==> Served(v, upper, namespace, restores, input, spans, tokens, i)
  }

  /** Why span i could not be replaced: the host's answer was screened out, or the text is its own token. */
  ghost predicate Unserved(v: Vault, upper: bytes -> bytes, namespace: bytes, i: nat, text: bytes, err: StoreError)
    reads if v.InMemory? then {v.memory} else {}
  {
    && err != Stored
    && match v
       case NoVault(_) => false
       case InMemory(memory) => err == IdentityToken && HoldsUnder(memory, upper, namespace, text, text)
       case HostVault(store) => Screened(store(i, text), text) == err
  }

  /**
   * replaceSpans over storeRedaction: one pass over the original, in order. It succeeds exactly when every span is
   * served; the first span that is not makes the whole text come back as it was.
   */
  method ReplaceSpans(vault: Vault, upper: bytes -> bytes, namespace: bytes, input: bytes, spans: seq<Span>)
    returns (output: bytes, err: StoreError, ghost tokens: seq<bytes>)
    requires ValidVault(vault) && InOrder(spans, |input|)
    modifies if vault.InMemory? then {vault.memory} else {}
    ensures ValidVault(vault) && Keeps(old(RestoresOf(vault)), RestoresOf(vault))
    ensures |tokens| <= |spans| && AllServed(vault, upper, namespace, RestoresOf(vault), input, spans, tokens, |tokens|)
    ensures err == Stored ==> |tokens| == |spans| && output == Replaced(input, spans, tokens)
    ensures err != Stored ==> output == input
    ensures err != Stored ==> |tokens| < |spans| && Unserved(vault, upper, namespace, |tokens|, TextOf(input, spans, |tokens|), err)
  {
    hide *;
    output, tokens := [], [];
    var offset := 0;
    NothingWoven(vault, upper, namespace, input, spans, RestoresOf(vault));
    KeepsIs(RestoresOf(vault), RestoresOf(vault));
    for i := 0 to |spans|
      invariant ValidVault(vault) && |tokens| == i && offset == EndOf(spans, i)
      invariant output == Woven(input, spans, tokens, i)
      invariant Keeps(old(RestoresOf(vault)), RestoresOf(vault))
      invariant AllServed(vault, upper, namespace, RestoresOf(vault), input, spans, tokens, i)
    {
      var span := spans[i];
      SpanFits(spans, i, |input|);
      ghost var before := RestoresOf(vault);
      output := output + input[offset..span.start];
      var text := input[span.start..span.end];
      var token, failed := StoreRedaction(vault, i, upper, namespace, text);
      KeepsOn(old(RestoresOf(vault)), before, RestoresOf(vault));
      PartsAre(input, spans, i);
      ServedOrNot(vault, upper, namespace, before, input, spans, tokens, token, failed);
      if failed != Stored {
        return input, failed, tokens;
      }
      output := output + token;
      WovenStep(input, spans, tokens, token);
      tokens := tokens + [token];
      offset := span.end;
    }
    ReplacedIs(input, spans, tokens);
    output := output + input[offset..];
    return output, Stored, tokens;
  }

  lemma NothingWoven(v: Vault, upper: bytes -> bytes, namespace: bytes, input: bytes, spans: seq<Span>, restores: map<bytes, bytes>)
    requires InOrder(spans, |input|)
    ensures EndOf(spans, 0) == 0 && Woven(input, spans, [], 0) == [] && AllServed(v, upper, namespace, restores, input, spans, [], 0)
  {
  }

  lemma PartsAre(input: bytes, spans: seq<Span>, i: nat)
    requires i < |spans| && InOrder(spans, |input|)
    ensures EndOf(spans, i) <= spans[i].start <= spans[i].end <= |input|
    ensures Gap(input, spans, i) == input[EndOf(spans, i)..spans[i].start]
    ensures TextOf(input, spans, i) == input[spans[i].start..spans[i].end]
  {
  }

  /** After one more call every earlier span is still served, and the next one is served or the call's error says why not. */
  lemma ServedOrNot(v: Vault, upper: bytes -> bytes, namespace: bytes, before: map<bytes, bytes>, input: bytes, spans: seq<Span>,
                    tokens: seq<bytes>, token: bytes, err: StoreError)
    requires |tokens| < |spans| && InOrder(spans, |input|) && Keeps(before, RestoresOf(v))
    requires AllServed(v, upper, namespace, before, input, spans, tokens, |tokens|)
    requires var text := TextOf(input, spans, |tokens|); Answered(v, |tokens|, upper, namespace, text, token, err)
    ensures AllServed(v, upper, namespace, RestoresOf(v), input, spans, tokens, |tokens|)
    ensures err == Stored ==> AllServed(v, upper, namespace, RestoresOf(v), input, spans, tokens + [token], |tokens| + 1)
    ensures err != Stored ==> Unserved(v, upper, namespace, |tokens|, TextOf(input, spans, |tokens|), err)
  {
    hide IsTokenShape, InOrder, TextOf;
    var i := |tokens|;
    forall k: nat | k < i
      ensures Served(v, upper, namespace, RestoresOf(v), input, spans, tokens, k)
      ensures Served(v, upper, namespace, RestoresOf(v), input, spans, tokens + [token], k)
    {
      assert Served(v, upper, namespace, before, input, spans, tokens, k);
      assert (tokens + [token])[k] == tokens[k];
    }
    assert err == Stored ==> Served(v, upper, namespace, RestoresOf(v), input, spans, tokens + [token], i);
  }

  lemma ReplacedIs(input: bytes, spans: seq<Span>, tokens: seq<bytes>)
    requires |tokens| == |spans| && InOrder(spans, |input|)
    ensures EndOf(spans, |spans|) <= |input|
    ensures Replaced(input, spans, tokens) == Woven(input, spans, tokens, |spans|) + input[EndOf(spans, |spans|)..]
  {
  }

  lemma WovenStep(input: bytes, spans: seq<Span>, tokens: seq<bytes>, token: bytes)
    requires |tokens| < |spans| && InOrder(spans, |input|)
    ensures var i := |tokens|;
            Woven(input, spans, tokens + [token], i + 1) == Woven(input, spans, tokens, i) + Gap(input, spans, i) + token
  {
    hide Gap, InOrder;
    WovenPrefix(input, spans, tokens, token, |tokens|);
  }

  /** Later tokens do not change what has been woven before them. */
  lemma {:induction false} WovenPrefix(input: bytes, spans: seq<Span>, tokens: seq<bytes>, token: bytes, i: nat)
    requires i <= |tokens| <= |spans| && InOrder(spans, |input|)
    ensures Woven(input, spans, tokens + [token], i) == Woven(input, spans, tokens, i)
    decreases i
  {
    hide Gap, InOrder;
    if i > 0 {
      WovenPrefix(input, spans, tokens, token, i - 1);
      assert (tokens + [token])[i - 1] == tokens[i - 1];
    }
  }

  /** How the check for personal data ends. */
  datatype PiiVerdict = Ended | Clean | Refused | Faulted(err: StoreError) | Masked

  /** Every span of the masked text was replaced, each as the vault serves it. */
  ghost predicate MaskedBy(v: Vault, upper: bytes -> bytes, namespace: bytes,
                           restores: map<bytes, bytes>, input: bytes, spans: seq<Span>, output: bytes)
    requires InOrder(spans, |input|)
  {
    exists tokens: seq<bytes> ::
      |tokens| == |spans| && AllServed(v, upper, namespace, restores, input, spans, tokens, |spans|) && output == Replaced(input, spans, tokens)
  }

  ghost predicate NotServed(v: Vault, upper: bytes -> bytes, namespace: bytes, input: bytes, spans: seq<Span>, err: StoreError)
    requires InOrder(spans, |input|)
    reads if v.InMemory? then {v.memory} else {}
  {
    exists i: nat :: i < |spans| && Unserved(v, upper, namespace, i, TextOf(input, spans, i), err)
  }

  ghost predicate NoEmail(word: WordRunes, s: bytes) {
    forall start: nat, at: nat, end: nat :: !IsEmail(word, s, start, at, end)
  }

  /** Spans that hold every address and candidate and nothing else are none exactly when there is nothing to hold. */
  lemma NothingFound(word: WordRunes, s: bytes, patterns: seq<Span>, spans: seq<Span>)
    requires Proper(spans) && Proper(patterns) && AllInside(spans, patterns)
    requires forall start: nat, at: nat, end: nat :: IsEmail(word, s, start, at, end) ==> Inside(spans, start, end)
    requires forall k: nat :: Covered(spans, k) ==> Covered(patterns, k) || InEmail(word, s, k)
    ensures spans == [] <==> patterns == [] && NoEmail(word, s)
  {
    hide IsEmail;
    assert spans != [] ==> Covered(spans, spans[0].start);
    assert patterns != [] ==> Inside(spans, patterns[0].start, patterns[0].end);
  }

  /**
   * Validate of the check for personal data: nothing found, a refusal, a fault, or every address and candidate
   * replaced; and the way back from the masked text when nothing between the spans is a token of the store.
   */
  method MaskPii(word: WordRunes, vault: Vault, upper: bytes -> bytes, namespace: bytes, blocking: bool, ended: nat -> bool,
                 input: bytes, patterns: seq<Span>)
    returns (output: bytes, verdict: PiiVerdict, ghost spans: seq<Span>)
    requires ValidVault(vault)
    requires Proper(patterns) && forall i :: 0 <= i < |patterns| ==> patterns[i].end <= |input|
    modifies if vault.InMemory? then {vault.memory} else {}
    ensures ValidVault(vault) && Keeps(old(RestoresOf(vault)), RestoresOf(vault))
    ensures verdict == Ended <==> ended(0)
    ensures verdict != Masked ==> output == input
    ensures verdict != Ended ==>
              && InOrder(spans, |input|) && AllInside(spans, patterns)
              && forall start: nat, at: nat, end: nat :: IsEmail(word, input, start, at, end) ==> Inside(spans, start, end)
    ensures verdict != Ended ==> forall k: nat :: Covered(spans, k) ==> Covered(patterns, k) || InEmail(word, input, k)
    ensures verdict != Ended ==> forall k: nat :: Crosses(spans, k) ==> Crosses(patterns, k) || AcrossEmail(word, input, k)
    ensures verdict != Ended ==> (verdict == Clean <==> patterns == [] && NoEmail(word, input))
    ensures verdict != Ended ==> (verdict == Clean <==> spans == []) && (verdict == Refused <==> spans != [] && blocking)
    ensures verdict.Faulted? ==> ended(1) || NotServed(vault, upper, namespace, input, spans, verdict.err)
    ensures verdict == Masked ==> !ended(1)
    ensures verdict == Masked ==> MaskedBy(vault, upper, namespace, RestoresOf(vault), input, spans, output)
    ensures verdict == Masked && vault.InMemory? && GapsUnknown(input, spans, RestoresOf(vault)) ==>
              Unredact(output, RestoresOf(vault)) == input
  {
    hide IsEmail, Unredact, IsTokenShape, Keeps, AllServed, Woven, GapsUnknown, Covered, InEmail, Crosses, AcrossEmail, NoEmail;
    spans := [];
    KeepsIs(RestoresOf(vault), RestoresOf(vault));
    if ended(0) {
      return input, Ended, spans;
    }
    var found := PiiSpans.PiiSpans(word, input, patterns);
    spans := found;
    NothingFound(word, input, patterns, found);
    if |found| == 0 {
      return input, Clean, spans;
    }
    if blocking {
      return input, Refused, spans;
    }
    var err;
    ghost var tokens;
    output, err, tokens := ReplaceSpans(vault, upper, namespace, input, found);
    if err != Stored || ended(1) {
      return input, Faulted(err), spans;
    }
    verdict := Masked;
    if vault.InMemory? && GapsUnknown(input, found, RestoresOf(vault)) {
      ServedStand(vault, upper, namespace, RestoresOf(vault), input, found, tokens);
      RoundTrip(input, found, tokens, RestoresOf(vault));
    }
  }

  lemma ServedStand(v: Vault, upper: bytes -> bytes, namespace: bytes,
                    restores: map<bytes, bytes>, input: bytes, spans: seq<Span>, tokens: seq<bytes>)
    requires v.InMemory? && |tokens| == |spans| && InOrder(spans, |input|) && AllServed(v, upper, namespace, restores, input, spans, tokens, |spans|)
    ensures AllStand(input, spans, tokens, restores, |spans|)
  {
    forall k | 0 <= k < |spans|
      ensures Stands(input, spans, tokens, restores, k)
    {
      assert Served(v, upper, namespace, restores, input, spans, tokens, k);
    }
  }
}
