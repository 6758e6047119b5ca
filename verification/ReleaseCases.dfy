/** Which values have the right shape, which inputs framing refuses with which category, and what may wait (release.go, stream_splitter.go). */
module ReleaseCases {
  import opened Wrappers
  import opened Utf8
  import opened Framing
  import opened JsonGrammar
  import opened JsonFraming
  import opened ReleaseSpec
  import opened ReleaseTheorems

  // ----- the shape of units, replacements and fallbacks

  /** A line unit is well-formed text whose one newline, if any, is its last byte. */
  lemma LineShape(cfg: Config, s: bytes)
    requires cfg.UnitLines()
    ensures ValidRepresentation(cfg, s) <==> ValidString(s) && (NEWLINE !in s || IsLine(s))
  {
    hide ValidString;
    NewlineBoundaryIs(s);
    var n := NewlineBoundary(s);
    if IsLine(s) {
      NewlineBoundaryUnique(s, |s|);
    }
    if n == |s| && n > 0 {
      assert NEWLINE !in s[..n - 1];
    }
    if 0 < n < |s| {
      assert s[n - 1] == NEWLINE;
    }
  }

  /** A JSON unit is well-formed text that the JSON check accepts and whose first byte behind whitespace opens a container. */
  lemma JsonShape(cfg: Config, s: bytes)
    requires cfg.jsonValues
    ensures ValidRepresentation(cfg, s) <==>
            ValidString(s) && cfg.jsonValid(s) && (cfg.profile == ValidatedUnits ==> exists k :: OpensAt(s, k))
  {
    hide ValidString;
    OpensIff(s);
  }

  predicate OpensAt(s: bytes, k: int) {
    0 <= k < |s| && AllSpace(s[..k]) && (s[k] == LEFT_BRACE || s[k] == LEFT_BRACKET)
  }

  lemma {:induction false} OpensIff(s: bytes)
    ensures OpensContainer(s) <==> exists k :: OpensAt(s, k)
  {
    if s != [] {
      OpensIff(s[1..]);
      if IsSpace(s[0]) {
        if k :| OpensAt(s, k) {
          assert k > 0;
          assert s[1..][..k - 1] == s[..k][1..];
          assert OpensAt(s[1..], k - 1);
        }
        if k :| OpensAt(s[1..], k) {
          assert s[..k + 1] == [s[0]] + s[1..][..k];
          assert OpensAt(s, k + 1);
        }
      } else {
        if k :| OpensAt(s, k) {
          OpensFirst(s, k);
        }
        assert s[..0] == [];
        assert s[0] == LEFT_BRACE || s[0] == LEFT_BRACKET ==> OpensAt(s, 0);
      }
    }
  }

  lemma OpensFirst(s: bytes, k: int)
    requires OpensAt(s, k)
    ensures k > 0 ==> IsSpace(s[0])
  {
    if k > 0 {
      assert s[..k][0] == s[0];
    }
  }

  lemma PlainShape(cfg: Config, s: bytes)
    requires !cfg.jsonValues && cfg.profile != ValidatedUnits
    ensures ValidRepresentation(cfg, s) <==> ValidString(s)
  {
  }

  // ----- lines

  /** Lines go through up to the smaller of the unit and the pending limit, newline included, and not beyond. */
  lemma LineLimit(cfg: Config, lines: seq<bytes>, tail: bytes)
    requires cfg.Compiled() && cfg.UnitLines()
    requires forall i :: 0 <= i < |lines| ==> IsLine(lines[i]) && |lines[i]| <= cfg.maxUnit && |lines[i]| <= cfg.maxPending
    requires NEWLINE !in tail && |tail| <= cfg.maxUnit && |tail| <= cfg.maxPending
    ensures CutAll(cfg, Joined(lines) + tail) == Cuts(WithTail(lines, tail), None)
  {
    hide IsLine, CutAll, WithTail, Joined;
    LinesAreUnits(cfg, lines, tail);
  }

  lemma LongerLine(cfg: Config, s: bytes, n: nat)
    requires cfg.Compiled() && cfg.UnitLines() && (n == cfg.maxUnit || n == cfg.maxPending)
    requires |s| > n && NEWLINE !in s[..n]
    ensures CutAll(cfg, s) == Cuts([], Some(Limit))
  {
    hide CutAll;
    assert forall b :: b in s[..cfg.Capacity()] ==> b in s[..n];
    LongLineRefused(cfg, s);
  }

  // ----- JSON units

  /** Input that ends inside a container, or before one begins, is incomplete. */
  lemma UnfinishedJsonRefused(cfg: Config, lead: bytes, v: Value, i: nat)
    requires cfg.Compiled() && cfg.UnitJson()
    requires AllSpace(lead) && IsValue(v) && IsContainer(v) && |lead| + |Show(v)| <= cfg.maxUnit
    requires 0 < i < |lead| + |Show(v)|
    ensures CutAll(cfg, (lead + Show(v))[..i]) == Cuts([], Some(Incomplete))
  {
    hide Scan, Show, AllSpace, IsValue;
    CompleteExactlyAtEnd(lead, v, i, cfg.maxUnit);
  }

  /** A unit that does not begin with a container is malformed. */
  lemma NonContainerRefused(cfg: Config, lead: bytes, b: byte, rest: bytes)
    requires cfg.Compiled() && cfg.UnitJson() && AllSpace(lead) && |lead| < cfg.maxUnit
    requires !IsSpace(b) && b != LEFT_BRACE && b != LEFT_BRACKET
    ensures CutAll(cfg, lead + [b] + rest) == Cuts([], Some(Malformed))
  {
    var p := Going(|lead|, FRESH);
    ScanLeading(0, lead, cfg.maxUnit);
    ScanAppend(START, lead, [b], cfg.maxUnit);
    ScanOne(p, b, cfg.maxUnit);
    ScanStable(lead + [b], rest, cfg.maxUnit);
  }

  /** A closing bracket without its opening one is malformed. */
  lemma StrayBracketRefused(cfg: Config, lead: bytes, kind: Kind, rest: bytes)
    requires cfg.Compiled() && cfg.UnitJson() && AllSpace(lead) && |lead| + 2 < cfg.maxUnit
    ensures var other := if kind == ObjectKind then ArrayKind else ObjectKind;
            CutAll(cfg, lead + [Opening(kind)] + [Closing(other)] + rest) == Cuts([], Some(Malformed))
  {
    var other := if kind == ObjectKind then ArrayKind else ObjectKind;
    var a, b := Opening(kind), Closing(other);
    var max := cfg.maxUnit;
    ScanLeading(0, lead, max);
    ScanAppend(START, lead + [a], [b], max);
    ScanAppend(START, lead, [a], max);
    ScanOne(Going(|lead|, FRESH), a, max);
    ScanOne(Going(|lead| + 1, Opened(kind)), b, max);
    ScanStable(lead + [a] + [b], rest, max);
  }

  // ----- best-effort chunks

  /** Cutting text without unit structure fails exactly on malformed or unfinished characters, as incomplete. */
  lemma {:induction false} BestEffortEndIff(cfg: Config, s: bytes)
    requires cfg.Compiled() && cfg.profile == BestEffort && cfg.maxPending >= cfg.maxUnit
    ensures CutAll(cfg, s).end == if ValidString(s) then None else Some(Incomplete)
    decreases |s|
  {
    if s == [] {
    } else if Cut(cfg, s, true).Unit? {
      var n := Cut(cfg, s, true).n;
      ChunkIsText(cfg, s);
      hide Cut, ValidString;
      CutAllFirst(cfg, s, n);
      BestEffortEndIff(cfg, s[n..]);
      ValidAppend(s[..n], s[n..]);
      assert s == s[..n] + s[n..];
    } else {
      if ValidString(s) {
        FirstChunk(cfg, s);
      }
      FinalNeverWaits(cfg, s);
      OnlyIncomplete(cfg, s);
    }
  }

  lemma OnlyIncomplete(cfg: Config, s: bytes)
    requires cfg.Compiled() && cfg.profile == BestEffort && cfg.maxPending >= cfg.maxUnit && s != []
    requires Cut(cfg, s, true).Refuse?
    ensures Cut(cfg, s, true) == Refuse(Incomplete) && CutAll(cfg, s) == Cuts([], Some(Incomplete))
  {
  }

  lemma ChunkIsText(cfg: Config, s: bytes)
    requires cfg.Compiled() && cfg.profile == BestEffort && s != [] && Cut(cfg, s, true).Unit?
    ensures var n := Cut(cfg, s, true).n; 0 < n <= |s| && ValidString(s[..n])
  {
    hide WholeRunes, ValidString;
    var size := Min(|s|, cfg.maxUnit);
    CutBounds(cfg, s, true);
    WholeRunesValid(s[..size], 0);
    var n := Cut(cfg, s, true).n;
    assert s[..size][0..n] == s[..n];
  }

  // ----- no unit waits longer than it must

  /** Whether bytes wait, by profile: short of a newline, of a full chunk, or of the whole response. */
  lemma WaitsIff(cfg: Config, s: bytes)
    requires cfg.Compiled() && s != [] && !cfg.UnitJson()
    ensures cfg.UnitLines() ==> (Cut(cfg, s, false) == Wait <==> NEWLINE !in s && |s| <= cfg.maxUnit && |s| <= cfg.maxPending)
    ensures cfg.profile == BestEffort ==>
              (Cut(cfg, s, false) == Wait <==> |s| < cfg.maxUnit && (|s| <= cfg.maxPending || cfg.maxPending >= cfg.maxUnit))
    ensures cfg.profile == WholeResponse ==> (Cut(cfg, s, false) == Wait <==> |s| <= cfg.maxPending)
  {
    hide WholeRunes;
    NewlineBoundaryIs(s);
    if cfg.profile == BestEffort && |s| >= cfg.maxUnit {
      FullWindowProgress(s[..cfg.maxUnit]);
    }
  }

  /** A JSON unit is cut as soon as a byte behind its trailing whitespace shows where it ends. */
  lemma JsonIsPrompt(cfg: Config, u: Framed, next: bytes, final: bool)
    requires cfg.Compiled() && cfg.UnitJson() && IsFramed(u) && |ShowFramed(u)| <= cfg.maxUnit
    requires next != [] && !IsSpace(next[0])
    ensures Cut(cfg, ShowFramed(u) + next, final) == Unit(|ShowFramed(u)|)
  {
    hide Scan, IsFramed, ShowFramed;
    BoundaryAfterTrailingSpace(u, next, cfg.maxUnit);
  }

  lemma {:induction false} RestWaits(cfg: Config, j: Journal, s: bytes)
    requires cfg.Compiled()
    ensures var (k, rest) := Drain(cfg, j, s, false); k.ended.None? ==> rest == [] || Cut(cfg, rest, false) == Wait
    decreases |s|
  {
    hide Cut, Release;
    if j.ended.None? && s != [] {
      CutBounds(cfg, s, false);
      var c := Cut(cfg, s, false);
      if c.Unit? {
        RestWaits(cfg, Release(cfg, j, s[..c.n]), s[c.n..]);
      }
    }
  }

  /** After any writes to a stream that goes on, no complete unit is left waiting: each was released at once. */
  lemma NoUnitWaits(cfg: Config, writes: seq<bytes>)
    requires cfg.Compiled() && AfterWrites(cfg, writes).0.ended.None?
    ensures var rest := AfterWrites(cfg, writes).1;
            && (cfg.UnitLines() ==> NEWLINE !in rest)
            && (cfg.profile == BestEffort ==> |rest| < cfg.maxUnit)
            && (cfg.UnitJson() ==>
                  forall u, next :: IsFramed(u) && |ShowFramed(u)| <= cfg.maxUnit && next != [] && !IsSpace(next[0]) ==>
                                      rest != ShowFramed(u) + next)
  {
    hide Drain, Cut, IsFramed, ShowFramed, AfterWrites;
    var rest := AfterWrites(cfg, writes).1;
    StateDependsOnBytesOnly(cfg, writes);
    RestWaits(cfg, EMPTY, Concat(writes));
    if cfg.UnitJson() {
      forall u, next | IsFramed(u) && |ShowFramed(u)| <= cfg.maxUnit && next != [] && !IsSpace(next[0])
        ensures rest != ShowFramed(u) + next
      {
        JsonIsPrompt(cfg, u, next, false);
      }
    } else if rest != [] {
      WaitsIff(cfg, rest);
    }
  }
}
