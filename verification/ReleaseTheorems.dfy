/** Properties of the release specification: nothing depends on how the input was split into writes. */
module ReleaseTheorems {
  import opened Wrappers
  import opened Sequences
  import opened Utf8
  import opened Framing
  import opened JsonGrammar
  import opened JsonFraming
  import opened Reports
  import opened GuardedOutput
  import opened ReleaseSpec

  // ----- a cut that is known stays known

  lemma {:induction false} NewlineAppend(s: bytes, more: bytes)
    ensures NewlineBoundary(s) > 0 ==> NewlineBoundary(s + more) == NewlineBoundary(s)
    ensures NewlineBoundary(s) == 0 && NewlineBoundary(more) == 0 ==> NewlineBoundary(s + more) == 0
    ensures NewlineBoundary(s) == 0 && NewlineBoundary(more) > 0 ==>
              NewlineBoundary(s + more) == |s| + NewlineBoundary(more)
    decreases |s|
  {
    if s == [] {
      assert s + more == more;
    } else {
      assert (s + more)[1..] == s[1..] + more;
      NewlineAppend(s[1..], more);
    }
  }

  /** A full window always yields a whole character: it has room for the longest one. */
  lemma FullWindowProgress(window: bytes)
    requires |window| >= UTF_MAX
    ensures WholeRunes(window, 0) != Upto(0)
  {
    var at := window[0..UTF_MAX];
    assert FullRune(at);
  }

  lemma CutStable(cfg: Config, s: bytes, more: bytes, final: bool)
    requires cfg.Compiled() && s != [] && Cut(cfg, s, false) != Wait
    ensures Cut(cfg, s + more, final) == Cut(cfg, s, false)
  {
    if cfg.UnitJson() {
      ScanStable(s, more, cfg.maxUnit);
    } else if cfg.UnitLines() {
      NewlineAppend(s, more);
    } else if cfg.profile == BestEffort {
      if |s| >= cfg.maxUnit {
        assert (s + more)[..cfg.maxUnit] == s[..cfg.maxUnit];
        FullWindowProgress(s[..cfg.maxUnit]);
      }
    }
  }

  /** At the end of the input nothing waits any more. */
  lemma FinalNeverWaits(cfg: Config, s: bytes)
    requires cfg.Compiled() && s != [] && cfg.profile != WholeResponse
    ensures Cut(cfg, s, true) != Wait
  {
  }

  // ----- draining is a monoid action

  lemma {:induction false} DrainLeavesWaiting(cfg: Config, j: Journal, s: bytes)
    requires cfg.Compiled()
    ensures var (k, rest) := Drain(cfg, j, s, false);
            && (k.ended.Some? ==> rest == [])
            && (k.ended.None? && rest != [] ==> Cut(cfg, rest, false) == Wait)
            && |rest| <= |s|
    decreases |s|
  {
    if j.ended.None? && s != [] {
      CutBounds(cfg, s, false);
      var c := Cut(cfg, s, false);
      if c.Unit? {
        DrainLeavesWaiting(cfg, Release(cfg, j, s[..c.n]), s[c.n..]);
      }
    }
  }

  /** Draining a first part and then the rest is draining it all at once. */
  lemma {:induction false} DrainAppend(cfg: Config, j: Journal, s: bytes, more: bytes, final: bool)
    requires cfg.Compiled()
    ensures var (k, rest) := Drain(cfg, j, s, false);
            Drain(cfg, j, s + more, final) == Drain(cfg, k, rest + more, final)
    decreases |s|
  {
    if j.ended.Some? {
    } else if s == [] {
      assert s + more == more;
    } else {
      CutBounds(cfg, s, false);
      var c := Cut(cfg, s, false);
      if c != Wait {
        CutStable(cfg, s, more, final);
        if c.Unit? {
          assert (s + more)[..c.n] == s[..c.n];
          assert (s + more)[c.n..] == s[c.n..] + more;
          DrainAppend(cfg, Release(cfg, j, s[..c.n]), s[c.n..], more, final);
        }
      }
    }
  }

  /** Bytes that arrive when the ring is full and shows no unit fail the stream. */
  lemma FullRingRefuses(cfg: Config, s: bytes, more: bytes)
    requires cfg.Compiled() && !cfg.UnitJson()
    requires |s| == cfg.Capacity() && Cut(cfg, s, false) == Wait && more != []
    ensures Cut(cfg, s + more, false) == Refuse(Limit)
  {
    if cfg.UnitLines() {
      NewlineAppend(s, more);
    } else if cfg.profile == BestEffort {
      if |s| >= cfg.maxUnit {
        FullWindowProgress(s[..cfg.maxUnit]);
      }
    }
  }

  /** With JSON units the ring never fills: the unit limit, which is smaller, strikes first. */
  lemma JsonNeverFillsRing(cfg: Config, s: bytes)
    requires cfg.Compiled() && cfg.UnitJson() && s != [] && Cut(cfg, s, false) == Wait
    ensures |s| < cfg.Capacity()
  {
    ScanSane(START, s, cfg.maxUnit);
  }

  // ----- partition independence

  function Concat(parts: seq<bytes>): bytes {
    if parts == [] then [] else Concat(parts[..|parts| - 1]) + parts[|parts| - 1]
  }

  /** The stream after a sequence of writes, each handled with what the previous ones left waiting. */
  function AfterWrites(cfg: Config, writes: seq<bytes>): (Journal, bytes)
    requires cfg.Compiled()
  {
    if writes == [] then (EMPTY, [])
    else
      var (j, rest) := AfterWrites(cfg, writes[..|writes| - 1]);
      Drain(cfg, j, rest + writes[|writes| - 1], false)
  }

  function Run(cfg: Config, writes: seq<bytes>): Journal
    requires cfg.Compiled()
  {
    var (j, rest) := AfterWrites(cfg, writes);
    Finish(cfg, j, rest)
  }

  /** After any writes the sink, the sequence and the waiting bytes depend only on the bytes received so far. */
  lemma {:induction false} StateDependsOnBytesOnly(cfg: Config, writes: seq<bytes>)
    requires cfg.Compiled()
    ensures AfterWrites(cfg, writes) == Drain(cfg, EMPTY, Concat(writes), false)
    decreases |writes|
  {
    if writes != [] {
      var front, last := writes[..|writes| - 1], writes[|writes| - 1];
      StateDependsOnBytesOnly(cfg, front);
      DrainAppend(cfg, EMPTY, Concat(front), last, false);
    }
  }

  /** Any two ways to split the same input end with the same sink, sequence, decision and category. */
  lemma PartitionIndependence(cfg: Config, writes: seq<bytes>, others: seq<bytes>)
    requires cfg.Compiled() && Concat(writes) == Concat(others)
    ensures Run(cfg, writes) == Run(cfg, others) == Outcome(cfg, Concat(writes))
  {
    StateDependsOnBytesOnly(cfg, writes);
    StateDependsOnBytesOnly(cfg, others);
  }

  // ----- cut the whole input, then fold validation over the units

  datatype Cuts = Cuts(units: seq<bytes>, end: Option<Category>)

  /** The units of the whole input, and why cutting stopped early if it did. */
  function CutAll(cfg: Config, s: bytes): Cuts
    requires cfg.Compiled()
    decreases |s|
  {
    if s == [] then Cuts([], None)
    else
      CutBounds(cfg, s, true);
      match Cut(cfg, s, true)
      case Wait => Cuts([], None)
      case Refuse(category) => Cuts([], Some(category))
      case Unit(n) =>
        var rest := CutAll(cfg, s[n..]);
        Cuts([s[..n]] + rest.units, rest.end)
  }

  /** Validates and releases the units in order until one of them ends the stream. */
  function ReleaseAll(cfg: Config, j: Journal, units: seq<bytes>): Journal
    decreases |units|
  {
    if units == [] || j.ended.Some? then j else ReleaseAll(cfg, Release(cfg, j, units[0]), units[1..])
  }

  function EndOf(j: Journal, end: Option<Category>): Journal {
    if j.ended.Some? then j else if end.Some? then FailPlain(j, end.value) else Close(j)
  }

  lemma {:induction false} DrainIsFold(cfg: Config, j: Journal, s: bytes)
    requires cfg.Compiled() && cfg.profile != WholeResponse
    ensures var c := CutAll(cfg, s); Close(Drain(cfg, j, s, true).0) == EndOf(ReleaseAll(cfg, j, c.units), c.end)
    decreases |s|
  {
    if s != [] {
      CutBounds(cfg, s, true);
      FinalNeverWaits(cfg, s);
      var c := Cut(cfg, s, true);
      if c.Unit? {
        var rest := CutAll(cfg, s[c.n..]);
        assert ([s[..c.n]] + rest.units)[1..] == rest.units;
        DrainIsFold(cfg, Release(cfg, j, s[..c.n]), s[c.n..]);
        EndedStays(cfg, j, CutAll(cfg, s).units);
      }
    }
  }

  lemma EndedStays(cfg: Config, j: Journal, units: seq<bytes>)
    ensures j.ended.Some? ==> ReleaseAll(cfg, j, units) == j
  {
  }

  /** Completing a stream is cutting its whole input into units and folding validation over them. */
  lemma OutcomeIsCutThenFold(cfg: Config, input: bytes)
    requires cfg.Compiled() && cfg.profile != WholeResponse
    ensures var c := CutAll(cfg, input); Outcome(cfg, input) == EndOf(ReleaseAll(cfg, EMPTY, c.units), c.end)
  {
    var (j, rest) := Drain(cfg, EMPTY, input, false);
    DrainAppend(cfg, EMPTY, input, [], true);
    assert input + [] == input && rest + [] == rest;
    DrainIsFold(cfg, EMPTY, input);
  }

  /** A whole response is one unit, validated even when it is empty. */
  lemma WholeResponseOutcome(cfg: Config, input: bytes)
    requires cfg.Compiled() && cfg.profile == WholeResponse
    ensures Outcome(cfg, input) ==
            if |input| > cfg.maxPending || |input| > cfg.maxUnit then FailPlain(EMPTY, Limit)
            else Close(Release(cfg, EMPTY, input))
    ensures Drain(cfg, EMPTY, input, false).0.sink == []
  {
  }

  // ----- the units themselves

  /** No byte is lost, doubled or moved: the units are the input, up to where cutting failed. */
  lemma {:induction false} UnitsAreInput(cfg: Config, s: bytes)
    requires cfg.Compiled() && cfg.profile != WholeResponse
    ensures var c := CutAll(cfg, s);
            && Joined(c.units) <= s
            && (c.end.None? ==> Joined(c.units) == s)
            && (forall u :: u in c.units ==> 0 < |u| <= cfg.maxUnit)
    decreases |s|
  {
    if s != [] {
      CutBounds(cfg, s, true);
      FinalNeverWaits(cfg, s);
      var c := Cut(cfg, s, true);
      if c.Unit? {
        CutAllFirst(cfg, s, c.n);
        UnitsAreInput(cfg, s[c.n..]);
        hide CutAll, Cut;
        JoinedFirst(s, c.n, CutAll(cfg, s[c.n..]).units);
      }
    }
  }

  lemma JoinedFirst(s: bytes, n: nat, rest: seq<bytes>)
    requires n <= |s| && Joined(rest) <= s[n..]
    ensures Joined([s[..n]] + rest) == s[..n] + Joined(rest) <= s
    ensures Joined(rest) == s[n..] ==> Joined([s[..n]] + rest) == s
  {
    assert ([s[..n]] + rest)[1..] == rest;
    assert s == s[..n] + s[n..];
  }

  function Joined(units: seq<bytes>): bytes {
    if units == [] then [] else units[0] + Joined(units[1..])
  }

  /** A line unit: its one newline, if any, is its last byte. */
  predicate IsLine(u: bytes) { u != [] && u[|u| - 1] == NEWLINE && NEWLINE !in u[..|u| - 1] }

  predicate AreLines(lines: seq<bytes>, max: nat) {
    forall i :: 0 <= i < |lines| ==> IsLine(lines[i]) && |lines[i]| <= max
  }

  function WithTail(lines: seq<bytes>, tail: bytes): seq<bytes> {
    if tail == [] then lines else lines + [tail]
  }

  /** Any sequence of lines within the limit, with an unterminated tail, is cut exactly at its newlines. */
  lemma {:induction false} LinesAreUnits(cfg: Config, lines: seq<bytes>, tail: bytes)
    requires cfg.Compiled() && cfg.UnitLines()
    requires AreLines(lines, cfg.Capacity())
    requires NEWLINE !in tail && |tail| <= cfg.Capacity()
    ensures CutAll(cfg, Joined(lines) + tail) == Cuts(WithTail(lines, tail), None)
    decreases |lines|
  {
    if lines == [] {
      assert Joined(lines) + tail == tail;
      TailIsUnit(cfg, tail);
    } else {
      hide CutAll, AreLines, IsLine, Joined, WithTail;
      FirstLine(lines, tail, cfg.Capacity());
      LineFirst(cfg, lines[0], Joined(lines[1..]) + tail);
      LinesAreUnits(cfg, lines[1..], tail);
    }
  }

  lemma FirstLine(lines: seq<bytes>, tail: bytes, max: nat)
    requires AreLines(lines, max) && lines != []
    ensures IsLine(lines[0]) && |lines[0]| <= max && AreLines(lines[1..], max)
    ensures Joined(lines) + tail == lines[0] + (Joined(lines[1..]) + tail)
    ensures [lines[0]] + WithTail(lines[1..], tail) == WithTail(lines, tail)
  {
    Regroup(lines[0], Joined(lines[1..]), tail);
    Regroup([lines[0]], lines[1..], [tail]);
    assert [lines[0]] + lines[1..] == lines;
  }

  lemma TailIsUnit(cfg: Config, tail: bytes)
    requires cfg.Compiled() && cfg.UnitLines() && NEWLINE !in tail && |tail| <= cfg.Capacity()
    ensures CutAll(cfg, tail) == Cuts(WithTail([], tail), None)
  {
    NewlineBoundaryIs(tail);
    if tail != [] {
      assert tail[..|tail|] == tail && tail[|tail|..] == [];
      CutAllFirst(cfg, tail, |tail|);
    }
  }

  lemma LineFirst(cfg: Config, u: bytes, rest: bytes)
    requires cfg.Compiled() && cfg.UnitLines() && IsLine(u) && |u| <= cfg.Capacity()
    ensures var c := CutAll(cfg, rest); CutAll(cfg, u + rest) == Cuts([u] + c.units, c.end)
  {
    NewlineBoundaryUnique(u, |u|);
    NewlineAppend(u, rest);
    assert (u + rest)[..|u|] == u && (u + rest)[|u|..] == rest;
    CutAllFirst(cfg, u + rest, |u|);
  }

  /** A line over the limit fails the stream there, whatever follows. */
  lemma LongLineRefused(cfg: Config, s: bytes)
    requires cfg.Compiled() && cfg.UnitLines() && |s| > cfg.Capacity() && NEWLINE !in s[..cfg.Capacity()]
    ensures CutAll(cfg, s) == Cuts([], Some(Limit))
  {
    NewlineBoundaryIs(s);
    assert forall i :: 0 <= i < cfg.Capacity() ==> s[i] in s[..cfg.Capacity()];
  }

  function ShowUnits(units: seq<Framed>): seq<bytes> {
    if units == [] then [] else [ShowFramed(units[0])] + ShowUnits(units[1..])
  }

  /** A sequence of JSON containers separated by whitespace; only the first unit has whitespace in front. */
  predicate IsSequence(units: seq<Framed>, max: nat) {
    && (forall i :: 0 <= i < |units| ==> IsFramed(units[i]) && |ShowFramed(units[i])| <= max)
    && (forall i :: 1 <= i < |units| ==> units[i].lead == [])
  }

  /** A sequence of JSON values is cut exactly at the value boundaries. */
  lemma {:induction false} JsonValuesAreUnits(cfg: Config, units: seq<Framed>)
    requires cfg.Compiled() && cfg.UnitJson() && IsSequence(units, cfg.maxUnit)
    ensures CutAll(cfg, Joined(ShowUnits(units))) == Cuts(ShowUnits(units), None)
    decreases |units|
  {
    if units != [] {
      var u, s := units[0], ShowFramed(units[0]);
      var rest := Joined(ShowUnits(units[1..]));
      assert ShowUnits(units)[1..] == ShowUnits(units[1..]);
      assert Joined(ShowUnits(units)) == s + rest;
      JsonValuesAreUnits(cfg, units[1..]);
      if |units| > 1 {
        assert units[1].lead == [];
        NextStartsContainer(units[1..]);
      }
      BoundaryAfterTrailingSpace(u, rest, cfg.maxUnit);
      if rest == [] {
        assert s + rest == s && s[..|s|] == s && s[|s|..] == [];
      } else {
        assert (s + rest)[..|s|] == s && (s + rest)[|s|..] == rest;
      }
    }
  }

  lemma NextStartsContainer(units: seq<Framed>)
    requires units != [] && IsFramed(units[0]) && units[0].lead == []
    ensures var s := Joined(ShowUnits(units)); s != [] && !IsSpace(s[0])
  {
    var v := units[0].value;
    assert Show(v)[0] == Opening(v.kind);
    assert ShowFramed(units[0])[0] == Show(v)[0];
  }

  // ----- best-effort chunks

  /** The bytes before a chunk's end are whole characters; what is left of the window starts with an unfinished one. */
  lemma {:induction false} WholeRunesValid(window: bytes, offset: nat)
    requires offset <= |window| && WholeRunes(window, offset).Upto?
    ensures var n := WholeRunes(window, offset).n;
            ValidString(window[offset..n]) && (n < |window| ==> !FullRune(window[n..]))
    decreases |window| - offset
  {
    hide *;
    if offset < |window| {
      AtWindow(window, offset);
      var at := window[offset..Min(|window|, offset + UTF_MAX)];
      RuneLooksAtFour(window[offset..]);
      RuneStep(window, offset, at);
      if FullRune(at) {
        var size, n := DecodeRune(at).size, WholeRunes(window, offset).n;
        WholeRunesValid(window, offset + size);
        OneRuneMore(window, offset, size, n);
      } else {
        NothingValid(window, offset);
      }
    } else {
      NothingLeft(window);
      NothingValid(window, offset);
    }
  }

  lemma NothingValid(window: bytes, offset: nat)
    requires offset <= |window|
    ensures ValidString(window[offset..offset])
  {
  }

  lemma OneRuneMore(window: bytes, offset: nat, size: nat, n: nat)
    requires offset < offset + size <= n <= |window|
    requires !IsMalformed(window[offset..]) && DecodeRune(window[offset..]).size == size
    requires ValidString(window[offset + size..n])
    ensures ValidString(window[offset..n])
  {
    var s := window[offset..];
    OneRuneValid(s);
    assert s[..size] == window[offset..offset + size];
    ValidAppend(s[..size], window[offset + size..n]);
    assert window[offset..n] == s[..size] + window[offset + size..n];
  }

  /** One turn of the loop over a window's characters. */
  lemma RuneStep(window: bytes, offset: nat, at: bytes)
    requires offset < |window| && at == window[offset..Min(|window|, offset + UTF_MAX)]
    ensures WholeRunes(window, offset) ==
            if !FullRune(at) then Upto(offset)
            else if IsMalformed(at) then BadRune
            else WholeRunes(window, offset + DecodeRune(at).size)
  {
  }

  /** Decoding looks at no more than four bytes. */
  lemma RuneLooksAtFour(s: bytes)
    requires s != []
    ensures var at := s[..Min(|s|, UTF_MAX)];
            DecodeRune(s) == DecodeRune(at) && (FullRune(s) <==> FullRune(at)) && (IsMalformed(s) <==> IsMalformed(at))
  {
    var at := s[..Min(|s|, UTF_MAX)];
    assert forall i :: 0 <= i < |at| ==> at[i] == s[i];
  }

  lemma OneRuneValid(s: bytes)
    requires s != [] && !IsMalformed(s)
    ensures ValidString(s[..DecodeRune(s).size])
  {
    var n := DecodeRune(s).size;
    var head := s[..n];
    assert forall i :: 0 <= i < n ==> head[i] == s[i];
    assert head[n..] == [];
  }

  /** Valid text never ends in a way that leaves a rest which is no whole character. */
  lemma NotFullInvalid(s: bytes)
    requires s != [] && !FullRune(s)
    ensures !ValidString(s) && |s| < UTF_MAX
  {
  }

  /** Cutting valid text at a character boundary leaves valid text. */
  lemma ValidSuffix(s: bytes, n: nat)
    requires n <= |s| && ValidString(s) && ValidString(s[..n])
    ensures ValidString(s[n..])
  {
    assert s == s[..n] + s[n..];
    ValidAppend(s[..n], s[n..]);
  }

  /**
   * For well-formed UTF-8 every chunk is non-empty well-formed UTF-8 of at most MaxUnitBytes, every chunk but
   * the last is longer than MaxUnitBytes - 4, and the chunks joined are the input. The one exception is a ring
   * too small for a unit: it refuses input that does not fit, before any chunk.
   */
  lemma {:induction false} BestEffortChunks(cfg: Config, s: bytes)
    requires cfg.Compiled() && cfg.profile == BestEffort && ValidString(s)
    ensures var c := CutAll(cfg, s);
            if cfg.maxPending < cfg.maxUnit && cfg.maxPending < |s| then c == Cuts([], Some(Limit))
            else ChunksOf(c, s, cfg.maxUnit)
    decreases |s|
  {
    if s == [] {
    } else if cfg.maxPending >= cfg.maxUnit || |s| <= cfg.maxPending {
      FirstChunk(cfg, s);
      var n := Cut(cfg, s, true).n;
      CutAllFirst(cfg, s, n);
      BestEffortChunks(cfg, s[n..]);
      ChunkBefore(s, n, CutAll(cfg, s[n..]), cfg.maxUnit);
    } else {
      assert Cut(cfg, s, true) == Refuse(Limit);
    }
  }

  lemma CutAllFirst(cfg: Config, s: bytes, n: nat)
    requires cfg.Compiled() && s != [] && Cut(cfg, s, true) == Unit(n) && n <= |s|
    ensures var rest := CutAll(cfg, s[n..]); CutAll(cfg, s) == Cuts([s[..n]] + rest.units, rest.end)
  {
    CutBounds(cfg, s, true);
  }

  lemma FirstChunk(cfg: Config, s: bytes)
    requires cfg.Compiled() && cfg.profile == BestEffort && ValidString(s)
    requires s != [] && (cfg.maxPending >= cfg.maxUnit || |s| <= cfg.maxPending)
    ensures var c := Cut(cfg, s, true);
            && c.Unit? && 0 < c.n <= |s| && c.n <= cfg.maxUnit
            && ValidString(s[..c.n]) && ValidString(s[c.n..])
            && (c.n < |s| ==> c.n > cfg.maxUnit - UTF_MAX && cfg.maxPending >= cfg.maxUnit)
  {
    var size := Min(|s|, cfg.maxUnit);
    ValidWindow(s, size);
    ValidSuffix(s, WholeRunes(s[..size], 0).n);
  }

  /** A complete cutting of s into chunks. */
  predicate ChunksOf(c: Cuts, s: bytes, max: nat) {
    c.end.None? && Joined(c.units) == s && AreChunks(c.units, max)
  }

  predicate AreChunks(units: seq<bytes>, max: nat) {
    && (forall u :: u in units ==> u != [] && ValidString(u) && |u| <= max)
    && (forall i :: 0 <= i < |units| - 1 ==> |units[i]| > max - UTF_MAX)
  }

  lemma ChunkBefore(s: bytes, n: nat, rest: Cuts, max: nat)
    requires n <= |s| && ChunksOf(rest, s[n..], max)
    requires 0 < n <= max && ValidString(s[..n]) && (n < |s| ==> n > max - UTF_MAX)
    ensures ChunksOf(Cuts([s[..n]] + rest.units, rest.end), s, max)
  {
    var units := [s[..n]] + rest.units;
    assert units[1..] == rest.units;
    assert s == s[..n] + s[n..];
    if rest.units != [] {
      assert rest.units[0] in rest.units;
      assert |rest.units[0]| <= |s[n..]|;
    }
  }

  /** In a window of valid text the cut finds whole characters, at least one, and all but three bytes of it. */
  lemma ValidWindow(s: bytes, size: nat)
    requires ValidString(s) && 0 < size <= |s| && (size == |s| || size >= UTF_MAX)
    ensures var c := WholeRunes(s[..size], 0);
            && c.Upto? && 0 < c.n && size - UTF_MAX < c.n
            && ValidString(s[..c.n]) && (size == |s| ==> c.n == size)
  {
    var window := s[..size];
    assert window[0..] == window;
    PrefixNotBad(s, size, 0);
    WholeRunesValid(window, 0);
    var n := WholeRunes(window, 0).n;
    assert window[0..n] == s[..n];
    if n < size {
      NotFullInvalid(window[n..]);
    }
    if size == |s| {
      assert window == s;
      ValidSuffix(s, n);
    } else {
      FullWindowProgress(window);
    }
  }

  /** A prefix of valid text holds no malformed character. */
  lemma {:induction false} PrefixNotBad(s: bytes, size: nat, offset: nat)
    requires size <= |s| && offset <= size && ValidString(s[offset..])
    ensures WholeRunes(s[..size], offset).Upto?
    decreases size - offset
  {
    hide *;
    if offset < size {
      var d := PrefixStep(s, size, offset);
      if d > 0 {
        PrefixNotBad(s, size, offset + d);
      }
    } else {
      NothingLeft(s[..size]);
    }
  }

  /** One turn over the window: it stops before an unfinished character (d is zero) or passes a whole one. */
  lemma PrefixStep(s: bytes, size: nat, offset: nat) returns (d: nat)
    requires offset < size <= |s| && ValidString(s[offset..])
    ensures offset + d <= size
    ensures d == 0 ==> WholeRunes(s[..size], offset) == Upto(offset)
    ensures d > 0 ==> ValidString(s[offset + d..]) && WholeRunes(s[..size], offset) == WholeRunes(s[..size], offset + d)
  {
    hide *;
    var window := s[..size];
    AtWindow(window, offset);
    var at := window[offset..Min(|window|, offset + UTF_MAX)];
    RuneStep(window, offset, at);
    if !FullRune(at) {
      return 0;
    }
    d := DecodeRune(at).size;
    WindowHead(s, size, offset, |at|, d);
    FullPrefixDecodes(at, s[offset + |at|..]);
    ValidStep(at, s[offset + |at|..]);
  }

  lemma NothingLeft(window: bytes)
    ensures WholeRunes(window, |window|) == Upto(|window|)
  {
  }

  /** The bytes looked at for one character. */
  lemma AtWindow(window: bytes, offset: nat)
    requires offset < |window|
    ensures offset < Min(|window|, offset + UTF_MAX) <= |window|
    ensures window[offset..Min(|window|, offset + UTF_MAX)] == window[offset..][..Min(|window[offset..]|, UTF_MAX)]
  {
  }

  lemma WindowHead(s: bytes, size: nat, offset: nat, n: nat, d: nat)
    requires d <= n && offset + n <= size <= |s|
    ensures s[offset..] == s[..size][offset..offset + n] + s[offset + n..]
    ensures (s[..size][offset..offset + n] + s[offset + n..])[d..] == s[offset + d..]
  {
    assert s[offset..] == s[..size][offset..offset + n] + s[offset + n..];
    assert s[offset..][d..] == s[offset + d..];
  }

  lemma ValidStep(at: bytes, more: bytes)
    requires at != [] && ValidString(at + more) && DecodeRune(at) == DecodeRune(at + more)
    ensures var d := DecodeRune(at).size; 0 < d <= |at| && ValidString((at + more)[d..])
  {
  }

  /** Once enough bytes are there to decide, more bytes do not change the first character. */
  lemma FullPrefixDecodes(at: bytes, more: bytes)
    requires at != [] && FullRune(at) && ValidString(at + more)
    ensures !IsMalformed(at) && DecodeRune(at) == DecodeRune(at + more)
  {
    assert forall i :: 0 <= i < |at| ==> (at + more)[i] == at[i];
  }

  // ----- what every step keeps

  /** Releasing only appends, within the output limit, and numbers at most one attempt. */
  lemma ReleaseKeeps(cfg: Config, j: Journal, value: bytes)
    requires j.ended.None? && |j.sink| <= cfg.maxOutput
    ensures var k := Release(cfg, j, value);
            && j.sink <= k.sink && |k.sink| <= cfg.maxOutput
            && j.sequence <= k.sequence <= j.sequence + 1
            && (k.ended.None? ==> k.sequence == j.sequence + 1)
            && k.ended != Some(Success)
  {
  }

  lemma {:induction false} DrainKeeps(cfg: Config, j: Journal, s: bytes, final: bool)
    requires cfg.Compiled() && |j.sink| <= cfg.maxOutput
    ensures var k := Drain(cfg, j, s, final).0;
            && j.sink <= k.sink && |k.sink| <= cfg.maxOutput && j.sequence <= k.sequence
            && (k.ended == Some(Success) ==> k == j)
            && (k.ended.None? ==> j.ended.None?)
    decreases |s|
  {
    if j.ended.None? && s != [] {
      CutBounds(cfg, s, final);
      var c := Cut(cfg, s, final);
      if c.Unit? {
        ReleaseKeeps(cfg, j, s[..c.n]);
        DrainKeeps(cfg, Release(cfg, j, s[..c.n]), s[c.n..], final);
      }
    }
  }

  /** What a later write or completion can do to bytes already delivered: nothing. */
  lemma DeliveredPrefixIsFinal(cfg: Config, input: bytes, more: bytes)
    requires cfg.Compiled()
    ensures Drain(cfg, EMPTY, input, false).0.sink <= Drain(cfg, EMPTY, input + more, false).0.sink <= Outcome(cfg, input + more).sink
    ensures |Outcome(cfg, input + more).sink| <= cfg.maxOutput
  {
    var (j, rest) := Drain(cfg, EMPTY, input, false);
    DrainKeeps(cfg, EMPTY, input, false);
    DrainAppend(cfg, EMPTY, input, more, false);
    DrainKeeps(cfg, j, rest + more, false);
    var (k, left) := Drain(cfg, EMPTY, input + more, false);
    if k.ended.None? {
      if cfg.profile == WholeResponse {
        ReleaseKeeps(cfg, k, left);
      } else {
        DrainKeeps(cfg, k, left, true);
      }
    }
  }

  // ----- a fault can never activate the fallback

  /** Guard calls that come from a checked delivery without its own fallback. */
  ghost predicate Checked(call: GuardCall) {
    call.Guarded? ==> Consistent(call.delivery, call.err) && (call.err != NoError ==> !call.delivery.deliverable)
  }

  ghost predicate CheckedGuard(cfg: Config) {
    forall n: nat, value: bytes :: Checked(cfg.guard(n, value))
  }

  /** A stream is only ever blocked by a deny or a correction. */
  predicate BlockedByPolicy(j: Journal) {
    j.ended == Some(Blocked) ==> j.decision.disposition == DENY || j.decision.disposition == CORRECTION
  }

  lemma ReleaseBlockedByPolicy(cfg: Config, j: Journal, value: bytes)
    requires CheckedGuard(cfg) && j.ended.None?
    ensures BlockedByPolicy(Release(cfg, j, value))
  {
    var call := cfg.guard(j.sequence, value);
    assert Checked(call);
    if call.Guarded? && call.err != NoError && !call.delivery.decision.IsSystemFault() {
      RefusalIsPolicy(call.delivery, call.err);
    }
  }

  lemma RefusalIsPolicy(g: GuardedDelivery<bytes>, err: GuardError)
    requires Consistent(g, err) && err != NoError && !g.decision.IsSystemFault()
    ensures Carried(err).Some? && (err.failure.disposition == DENY || err.failure.disposition == CORRECTION)
  {
  }

  lemma {:induction false} DrainBlockedByPolicy(cfg: Config, j: Journal, s: bytes, final: bool)
    requires cfg.Compiled() && CheckedGuard(cfg) && BlockedByPolicy(j)
    ensures BlockedByPolicy(Drain(cfg, j, s, final).0)
    decreases |s|
  {
    if j.ended.None? && s != [] {
      CutBounds(cfg, s, final);
      var c := Cut(cfg, s, final);
      if c.Unit? {
        ReleaseBlockedByPolicy(cfg, j, s[..c.n]);
        DrainBlockedByPolicy(cfg, Release(cfg, j, s[..c.n]), s[c.n..], final);
      }
    }
  }

  lemma FinishBlockedByPolicy(cfg: Config, j: Journal, s: bytes)
    requires cfg.Compiled() && CheckedGuard(cfg) && BlockedByPolicy(j)
    ensures BlockedByPolicy(Finish(cfg, j, s))
  {
    if j.ended.None? {
      if cfg.profile == WholeResponse {
        ReleaseBlockedByPolicy(cfg, j, s);
      } else {
        DrainBlockedByPolicy(cfg, j, s, true);
      }
    }
  }

  /** Over every input: the category that admits a fallback is never recorded with a fault. */
  lemma OutcomeBlockedByPolicy(cfg: Config, input: bytes)
    requires cfg.Compiled() && CheckedGuard(cfg)
    ensures BlockedByPolicy(Outcome(cfg, input))
  {
    var (j, rest) := Drain(cfg, EMPTY, input, false);
    DrainBlockedByPolicy(cfg, EMPTY, input, false);
    FinishBlockedByPolicy(cfg, j, rest);
  }

  // ----- the separate fallback delivery

  /** The fallback's guard call is a checked delivery of the candidate; its policy has no fallback of its own. */
  ghost predicate FallbackGuardedBy(cfg: Config, policy: Policy<bytes>, candidate: bytes) {
    var call := cfg.fallbackGuard(candidate);
    call.Guarded? ==> policy.fallback.None? && Sound(policy, 0, candidate, call.delivery, call.err)
  }

  /** The value passed a full run of its own, with an allowed kind. */
  ghost predicate PassedFallback(policy: Policy<bytes>, candidate: bytes, value: bytes) {
    exists kind :: Passed(policy, 0, candidate, value, kind)
  }

  /** A fallback is delivered exactly when the candidate is in order, its guard approves a value in order, and all of it is taken. */
  lemma FallbackDeliveredIff(cfg: Config, released: nat, candidate: bytes)
    ensures var f, call := FallbackDelivery(cfg, released, candidate), cfg.fallbackGuard(candidate);
            && (f.ended == Some(Success) <==>
                  && |candidate| <= cfg.maxUnit && |candidate| <= cfg.maxInput && ValidRepresentation(cfg, candidate)
                  && call.Guarded? && !call.cancelled && call.err == NoError && call.delivery.deliverable
                  && ValidRepresentation(cfg, call.delivery.value)
                  && (cfg.profile != WholeResponse ==> |call.delivery.value| <= cfg.maxUnit)
                  && released + |call.delivery.value| <= cfg.maxOutput
                  && cfg.fallbackTransport(call.delivery.value) == WriteResult(|call.delivery.value|, false))
            && (f.ended == Some(Success) ==> f.sink == call.delivery.value && f.sequence == 1 && f.decision == call.delivery.decision)
            && (f.ended == Some(Unsupported) ==> cfg.UnitLines() && ValidString(candidate) && !ValidRepresentation(cfg, candidate))
            && (f.ended == Some(Transport) ==>
                  cfg.fallbackTransport(call.delivery.value) != WriteResult(|call.delivery.value|, false))
  {
    hide ValidRepresentation, ValidString;
  }

  /** The value that the fallback's guard approves. */
  function FallbackApproved(cfg: Config, candidate: bytes): Option<bytes> {
    match cfg.fallbackGuard(candidate)
    case ScopeFailed(_) => None
    case Guarded(d, err, cancelled) => if !cancelled && err == NoError && d.deliverable then Some(d.value) else None
  }

  /** Which failure a fallback ends in, cause by cause, and what the transport leaves. */
  lemma WhyFallbackEnds(cfg: Config, released: nat, candidate: bytes)
    ensures var f, call, a := FallbackDelivery(cfg, released, candidate), cfg.fallbackGuard(candidate), FallbackApproved(cfg, candidate);
            var fits := |candidate| <= cfg.maxUnit && |candidate| <= cfg.maxInput;
            var asked := fits && ValidRepresentation(cfg, candidate);
            var valid := asked && a.Some? && ValidRepresentation(cfg, a.value);
            var tooLong := a.Some? && ((cfg.profile != WholeResponse && |a.value| > cfg.maxUnit) || released + |a.value| > cfg.maxOutput);
            && (f.ended == Some(Limit) <==> !fits || (valid && tooLong))
            && (f.ended == Some(Unsupported) <==> fits && !asked && cfg.UnitLines() && ValidString(candidate))
            && (f.ended == Some(Malformed) <==> fits && !asked && !(cfg.UnitLines() && ValidString(candidate)))
            && (f.ended == Some(Timeout) <==> asked && call.Guarded? && call.cancelled)
            && (f.ended == Some(Blocked) <==>
                  asked && call.Guarded? && !call.cancelled && a.None? && (call.err == NoError || !call.delivery.decision.IsSystemFault()))
            && (f.ended == Some(ValidatorFault) <==>
                  asked && (call.ScopeFailed? || (!call.cancelled && call.err != NoError && call.delivery.decision.IsSystemFault())
                            || (a.Some? && !valid)))
            && (f.ended == Some(Transport) <==>
                  valid && !tooLong && cfg.fallbackTransport(a.value) != WriteResult(|a.value|, false))
            && (f.ended == Some(Transport) ==>
                  f.decision == call.delivery.decision && f.sink == Taken(cfg.fallbackTransport(a.value), a.value))
  {
    hide ValidRepresentation, ValidString;
  }

  /**
   * A fallback is a separately checked delivery. Whatever reaches the transport is a prefix of a value that passed
   * a run on the candidate, all of it on success, within what the source stream left of the output budget; and a
   * fallback that ends otherwise than by success or in the transport has written nothing and refuses.
   */
  lemma FallbackIsChecked(cfg: Config, policy: Policy<bytes>, released: nat, candidate: bytes)
    requires FallbackGuardedBy(cfg, policy, candidate) && released <= cfg.maxOutput
    ensures var f := FallbackDelivery(cfg, released, candidate);
            && f.ended.Some? && released + |f.sink| <= cfg.maxOutput
            && (f.ended == Some(Success) || f.ended == Some(Transport) ==>
                  exists value :: PassedFallback(policy, candidate, value) && ValidRepresentation(cfg, value)
                                  && f.sink <= value && (f.ended == Some(Success) ==> f.sink == value))
            && (f.ended != Some(Success) && f.ended != Some(Transport) ==> f.sink == [] && f.decision.disposition != NONE)
            && BlockedByPolicy(f)
  {
    hide Passed, ValidRepresentation;
    var call := cfg.fallbackGuard(candidate);
    var f := FallbackDelivery(cfg, released, candidate);
    if call.Guarded? && call.err != NoError && !call.delivery.decision.IsSystemFault() {
      RefusalIsPolicy(call.delivery, call.err);
    }
    if f.ended == Some(Success) || f.ended == Some(Transport) {
      assert PassedFallback(policy, candidate, call.delivery.value);
    }
  }

  // ----- from the guard to the sink

  /** Every guard call is a checked delivery under that unit's policy; a stream's policies have no inline fallback. */
  ghost predicate GuardedBy(cfg: Config, policy: nat -> Policy<bytes>) {
    forall n: nat, value: bytes :: GuardedAt(cfg, policy, n, value)
  }

  ghost predicate GuardedAt(cfg: Config, policy: nat -> Policy<bytes>, n: nat, value: bytes) {
    var call := cfg.guard(n, value);
    call.Guarded? ==> policy(n).fallback.None? && Sound(policy(n), 0, value, call.delivery, call.err)
  }

  /** What the stream assumes of its guard is what a checked delivery without fallback guarantees. */
  lemma DeliveryIsChecked(cfg: Config, policy: nat -> Policy<bytes>)
    requires GuardedBy(cfg, policy)
    ensures CheckedGuard(cfg)
  {
    forall n: nat, value: bytes
      ensures Checked(cfg.guard(n, value))
    {
      assert GuardedAt(cfg, policy, n, value);
    }
  }

  /** The value that the n-th guard call approves for a unit. */
  function Approved(cfg: Config, n: nat, unit: bytes): Option<bytes> {
    match cfg.guard(n, unit)
    case ScopeFailed(_) => None
    case Guarded(d, err, cancelled) => if !cancelled && err == NoError && d.deliverable then Some(d.value) else None
  }

  /** The approved values of consecutive units, up to the first unit that is not approved. */
  function ApprovedValues(cfg: Config, n: nat, units: seq<bytes>): (values: seq<bytes>)
    ensures |values| <= |units|
    ensures forall i :: 0 <= i < |values| ==> Approved(cfg, n + i, units[i]) == Some(values[i])
    decreases |units|
  {
    if units == [] || Approved(cfg, n, units[0]).None? then []
    else [Approved(cfg, n, units[0]).value] + ApprovedValues(cfg, n + 1, units[1..])
  }

  /** One release sends nothing, or a prefix of the unit's approved value, and goes on only after all of it. */
  lemma ReleaseSendsApproved(cfg: Config, j: Journal, unit: bytes)
    requires j.ended.None?
    ensures var k, a := Release(cfg, j, unit), Approved(cfg, j.sequence, unit);
            && (a.None? ==> k.sink == j.sink && k.ended.Some?)
            && (a.Some? ==> k.sink <= j.sink + a.value)
            && (k.ended.None? ==> a.Some? && k.sink == j.sink + a.value && k.sequence == j.sequence + 1)
  {
  }

  lemma {:induction false} ReleaseAllSendsApproved(cfg: Config, j: Journal, units: seq<bytes>)
    requires j.ended.None?
    ensures ReleaseAll(cfg, j, units).sink <= j.sink + Joined(ApprovedValues(cfg, j.sequence, units))
    decreases |units|
  {
    hide Release, Approved, Joined;
    if units != [] {
      var k, a := Release(cfg, j, units[0]), Approved(cfg, j.sequence, units[0]);
      ReleaseSendsApproved(cfg, j, units[0]);
      if k.ended.Some? {
        EndedStays(cfg, k, units[1..]);
      } else {
        ReleaseAllSendsApproved(cfg, k, units[1..]);
      }
      if a.Some? {
        JoinedOnto(k.sink, j.sink, a.value, ApprovedValues(cfg, j.sequence + 1, units[1..]));
      }
    }
  }

  lemma JoinedOnto(part: bytes, before: bytes, value: bytes, rest: seq<bytes>)
    ensures before + Joined([value] + rest) == before + value + Joined(rest)
    ensures part <= before + value ==> part <= before + Joined([value] + rest)
  {
    assert ([value] + rest)[1..] == rest;
    Regroup(before, value, Joined(rest));
  }

  // ----- what gets through, and why a stream ends

  /** The transport takes the value in full. */
  predicate Takes(cfg: Config, n: nat, value: bytes) {
    cfg.transport(n, value) == WriteResult(|value|, false)
  }

  /** Unit n, its approved value and the transport are all in order. */
  predicate Delivers(cfg: Config, n: nat, unit: bytes) {
    && ValidRepresentation(cfg, unit)
    && Approved(cfg, n, unit).Some?
    && var value := Approved(cfg, n, unit).value;
    && ValidRepresentation(cfg, value)
    && (cfg.profile != WholeResponse ==> |value| <= cfg.maxUnit)
    && Takes(cfg, n, value)
  }

  predicate AllDeliver(cfg: Config, n: nat, units: seq<bytes>) {
    forall i :: 0 <= i < |units| ==> Delivers(cfg, n + i, units[i])
  }

  /** A unit goes through exactly when it is in order and its value fits what is left of the output; then all of it is sent. */
  lemma ReleaseGoesOnIff(cfg: Config, j: Journal, unit: bytes)
    requires j.ended.None?
    ensures var k, a := Release(cfg, j, unit), Approved(cfg, j.sequence, unit);
            && (k.ended.None? <==> Delivers(cfg, j.sequence, unit) && |j.sink| + |a.value| <= cfg.maxOutput)
            && (k.ended.None? ==> k.sink == j.sink + a.value && k.sequence == j.sequence + 1)
            && (k.ended.None? ==> k.decision == cfg.guard(j.sequence, unit).delivery.decision)
  {
    hide ValidRepresentation, ValidString;
    RepresentationIsText(cfg, unit);
  }

  lemma RepresentationIsText(cfg: Config, s: bytes)
    ensures ValidRepresentation(cfg, s) ==> ValidString(s)
  {
  }

  /** Which failure a release ends in, cause by cause. */
  lemma WhyReleaseEnds(cfg: Config, j: Journal, unit: bytes)
    requires j.ended.None?
    ensures var k, call, a := Release(cfg, j, unit), cfg.guard(j.sequence, unit), Approved(cfg, j.sequence, unit);
            var asked := ValidRepresentation(cfg, unit);
            var tooLong := a.Some? && ((cfg.profile != WholeResponse && |a.value| > cfg.maxUnit) || |j.sink| + |a.value| > cfg.maxOutput);
            && (k.ended == Some(Incomplete) <==> !ValidString(unit))
            && (k.ended == Some(Malformed) <==> ValidString(unit) && !asked)
            && (k.ended == Some(Timeout) <==> asked && call.Guarded? && call.cancelled)
            && (k.ended == Some(Blocked) <==>
                  asked && call.Guarded? && !call.cancelled && a.None? && (call.err == NoError || !call.delivery.decision.IsSystemFault()))
            && (k.ended == Some(Limit) <==> asked && a.Some? && ValidRepresentation(cfg, a.value) && tooLong)
            && (k.ended == Some(Transport) <==>
                  asked && a.Some? && ValidRepresentation(cfg, a.value) && !tooLong && !Takes(cfg, j.sequence, a.value))
            && (k.ended == Some(ValidatorFault) <==>
                  asked && (call.ScopeFailed?
                            || (!call.cancelled && call.err != NoError && call.delivery.decision.IsSystemFault())
                            || (a.Some? && !ValidRepresentation(cfg, a.value))))
    ensures Release(cfg, j, unit).ended != Some(Success) && Release(cfg, j, unit).ended != Some(Unsupported)
  {
    hide ValidRepresentation, ValidString;
    RepresentationIsText(cfg, unit);
  }

  /** What of a value counts as sent: what the transport says it took, unless that is more than there was. */
  function Taken(w: WriteResult, value: bytes): bytes {
    if 0 <= w.count <= |value| then value[..w.count] else []
  }

  /** What a failing release leaves: only the transport can have taken a part, and no failure is recorded as a pass. */
  lemma WhatReleaseLeaves(cfg: Config, j: Journal, unit: bytes)
    requires j.ended.None? && Release(cfg, j, unit).ended.Some?
    ensures var k, call, a := Release(cfg, j, unit), cfg.guard(j.sequence, unit), Approved(cfg, j.sequence, unit);
            && (k.ended != Some(Transport) ==> k.sink == j.sink && k.sequence == j.sequence)
            && (k.ended == Some(Transport) ==>
                  && a.Some? && k.sequence == j.sequence + 1
                  && k.sink == j.sink + Taken(cfg.transport(j.sequence, a.value), a.value))
            && k.decision.disposition != NONE
            && (k.ended == Some(Blocked) && call.err != NoError && !call.err.UnsupportedAction? && call.err.failure.disposition != NONE ==>
                  k.decision == call.err.failure)
            && (k.ended == Some(Timeout) ==> k.decision.disposition == FAULT)
  {
    hide ValidRepresentation, ValidString;
    RepresentationIsText(cfg, unit);
  }

  /** A failed stream's decision: a fault after a timeout, never a pass, and otherwise the refusal that was known. */
  lemma WhyDecisionFails(j: Journal, category: Category, failure: Option<Decision>, decision: Decision)
    ensures var d, known := Fail(j, category, failure, decision).decision, if failure.Some? then failure.value else decision;
            && (category == Timeout || known.disposition == NONE ==> d == known.(disposition := FAULT))
            && (category != Timeout && known.disposition != NONE ==> d == known)
    ensures Fail(j, category, failure, decision).sink == j.sink && Fail(j, category, failure, decision).sequence == j.sequence
    ensures Fail(j, category, failure, decision).ended == Some(category)
  {
  }

  /** The decision of the last unit's delivery. */
  function LastDecision(cfg: Config, j: Journal, units: seq<bytes>): Decision {
    if units == [] then j.decision
    else
      var n := |units| - 1;
      match cfg.guard(j.sequence + n, units[n])
      case Guarded(d, _, _) => d.decision
      case ScopeFailed(_) => j.decision
  }

  lemma LastDecisionFirst(cfg: Config, j: Journal, k: Journal, units: seq<bytes>)
    requires units != [] && k.sequence == j.sequence + 1 && cfg.guard(j.sequence, units[0]).Guarded?
    requires k.decision == cfg.guard(j.sequence, units[0]).delivery.decision
    requires units[1..] == [] || cfg.guard(j.sequence + |units| - 1, units[|units| - 1]).Guarded?
    ensures LastDecision(cfg, j, units) == LastDecision(cfg, k, units[1..])
  {
    if |units| > 1 {
      assert units[1..][|units| - 2] == units[|units| - 1];
      assert k.sequence + (|units[1..]| - 1) == j.sequence + (|units| - 1);
    }
  }

  lemma {:induction false} ReleaseAllGoesOnIff(cfg: Config, j: Journal, units: seq<bytes>)
    requires j.ended.None?
    ensures var k, values := ReleaseAll(cfg, j, units), ApprovedValues(cfg, j.sequence, units);
            && (k.ended.None? <==> AllDeliver(cfg, j.sequence, units)
                                   && (units == [] || |j.sink| + |Joined(values)| <= cfg.maxOutput))
            && (k.ended.None? ==> k.sink == j.sink + Joined(values) && k.sequence == j.sequence + |units| && |values| == |units|)
            && (k.ended.None? ==> k.decision == LastDecision(cfg, j, units))
    decreases |units|
  {
    hide Release, Approved, Delivers, Joined;
    JoinedNothing();
    if units != [] {
      var k, a := Release(cfg, j, units[0]), Approved(cfg, j.sequence, units[0]);
      ReleaseGoesOnIff(cfg, j, units[0]);
      AllDeliverFirst(cfg, j.sequence, units);
      if k.ended.None? {
        DeliversIsApproved(cfg, j.sequence, units[0]);
        ReleaseAllGoesOnIff(cfg, k, units[1..]);
        if AllDeliver(cfg, j.sequence, units) {
          assert Delivers(cfg, j.sequence + (|units| - 1), units[|units| - 1]);
          DeliveredIsGuarded(cfg, j.sequence, units[0]);
          DeliveredIsGuarded(cfg, j.sequence + (|units| - 1), units[|units| - 1]);
          LastDecisionFirst(cfg, j, k, units);
        }
        JoinedMore(a.value, ApprovedValues(cfg, j.sequence + 1, units[1..]));
        Regroup(j.sink, a.value, Joined(ApprovedValues(cfg, j.sequence + 1, units[1..])));
      } else {
        EndedStays(cfg, k, units[1..]);
        if Delivers(cfg, j.sequence, units[0]) {
          DeliversIsApproved(cfg, j.sequence, units[0]);
          JoinedMore(a.value, ApprovedValues(cfg, j.sequence + 1, units[1..]));
        }
      }
    }
  }

  lemma JoinedNothing()
    ensures Joined([]) == []
  {
  }

  lemma JoinedMore(value: bytes, rest: seq<bytes>)
    ensures Joined([value] + rest) == value + Joined(rest)
  {
    assert ([value] + rest)[1..] == rest;
  }

  lemma DeliveredIsGuarded(cfg: Config, n: nat, unit: bytes)
    ensures Delivers(cfg, n, unit) ==> cfg.guard(n, unit).Guarded?
  {
  }

  lemma DeliversIsApproved(cfg: Config, n: nat, unit: bytes)
    ensures Delivers(cfg, n, unit) ==> Approved(cfg, n, unit).Some?
  {
  }

  lemma AllDeliverFirst(cfg: Config, n: nat, units: seq<bytes>)
    requires units != []
    ensures AllDeliver(cfg, n, units) <==> Delivers(cfg, n, units[0]) && AllDeliver(cfg, n + 1, units[1..])
  {
    hide Delivers;
    if Delivers(cfg, n, units[0]) && AllDeliver(cfg, n + 1, units[1..]) {
      forall i | 0 <= i < |units|
        ensures Delivers(cfg, n + i, units[i])
      {
        if i > 0 {
          assert units[1..][i - 1] == units[i];
          assert n + 1 + (i - 1) == n + i;
        } else {
          assert n + i == n;
        }
      }
    }
    if AllDeliver(cfg, n, units) {
      assert Delivers(cfg, n + 0, units[0]);
      forall i | 0 <= i < |units[1..]|
        ensures Delivers(cfg, n + 1 + i, units[1..][i])
      {
        assert Delivers(cfg, n + (i + 1), units[i + 1]);
        assert n + 1 + i == n + (i + 1);
      }
    }
  }

  /** The units of an input under its profile. */
  function Units(cfg: Config, input: bytes): seq<bytes>
    requires cfg.Compiled()
  {
    if cfg.profile == WholeResponse then [input] else CutAll(cfg, input).units
  }

  /** Why cutting the input stops, if it does. */
  function CutEnd(cfg: Config, input: bytes): Option<Category>
    requires cfg.Compiled()
  {
    if cfg.profile != WholeResponse then CutAll(cfg, input).end
    else if |input| > cfg.maxPending || |input| > cfg.maxUnit then Some(Limit)
    else None
  }

  lemma OutcomeIsFold(cfg: Config, input: bytes)
    requires cfg.Compiled()
    ensures var units, end := Units(cfg, input), CutEnd(cfg, input);
            Outcome(cfg, input) ==
            if cfg.profile == WholeResponse && end.Some? then FailPlain(EMPTY, Limit) else EndOf(ReleaseAll(cfg, EMPTY, units), end)
  {
    hide CutAll, Release, Drain, Finish, Outcome;
    if cfg.profile == WholeResponse {
      WholeResponseOutcome(cfg, input);
      OneUnit(cfg, EMPTY, input);
    } else {
      OutcomeIsCutThenFold(cfg, input);
    }
  }

  /**
   * Delivery: a completed stream ends in success exactly when framing does not fail, every unit is approved with a
   * value in order that the transport takes in full, and the values together fit the output. The sink is then all the
   * values joined, in order, and the sequence their number; this holds for every way to split the input.
   */
  lemma DeliveredIff(cfg: Config, writes: seq<bytes>)
    requires cfg.Compiled()
    ensures var input := Concat(writes);
            var units, k := Units(cfg, input), Run(cfg, writes);
            var values := ApprovedValues(cfg, 0, units);
            && (k.ended == Some(Success) <==>
                  CutEnd(cfg, input).None? && AllDeliver(cfg, 0, units) && |Joined(values)| <= cfg.maxOutput)
            && (k.ended == Some(Success) ==> k.sink == Joined(values) && k.sequence == |units| == |values|)
            && (k.ended == Some(Success) ==> k.decision == LastDecision(cfg, EMPTY, units))
  {
    hide CutAll, Release, Drain, Finish, Outcome, AllDeliver, Joined, ReleaseAll, ApprovedValues, Approved, LastDecision;
    var input := Concat(writes);
    var units := Units(cfg, input);
    PartitionIndependence(cfg, writes, writes);
    OutcomeIsFold(cfg, input);
    ReleaseAllGoesOnIff(cfg, EMPTY, units);
    ReleaseAllNoSuccess(cfg, EMPTY, units);
    CutEndIsFailure(cfg, input);
    NothingFits(cfg, units);
  }

  lemma NothingFits(cfg: Config, units: seq<bytes>)
    ensures units == [] ==> Joined(ApprovedValues(cfg, 0, units)) == []
  {
  }

  lemma {:induction false} ReleaseAllNoSuccess(cfg: Config, j: Journal, units: seq<bytes>)
    requires j.ended != Some(Success)
    ensures ReleaseAll(cfg, j, units).ended != Some(Success)
    decreases |units|
  {
    if units != [] && j.ended.None? {
      hide Release;
      WhyReleaseEnds(cfg, j, units[0]);
      ReleaseAllNoSuccess(cfg, Release(cfg, j, units[0]), units[1..]);
    }
  }

  lemma {:induction false} CutAllNoSuccess(cfg: Config, s: bytes)
    requires cfg.Compiled()
    ensures CutAll(cfg, s).end != Some(Success) && CutAll(cfg, s).end != Some(Transport)
    decreases |s|
  {
    if s != [] {
      CutBounds(cfg, s, true);
      var c := Cut(cfg, s, true);
      if c.Unit? {
        CutAllNoSuccess(cfg, s[c.n..]);
      }
    }
  }

  lemma CutEndIsFailure(cfg: Config, input: bytes)
    requires cfg.Compiled()
    ensures CutEnd(cfg, input) != Some(Success) && CutEnd(cfg, input) != Some(Transport)
  {
    CutAllNoSuccess(cfg, input);
  }

  /** The units before the one that ended the stream were delivered; that one was released last, from their journal. */
  lemma {:induction false} FirstFailure(cfg: Config, j: Journal, units: seq<bytes>) returns (i: nat, at: Journal)
    requires j.ended.None? && ReleaseAll(cfg, j, units).ended.Some?
    ensures i < |units| && AllDeliver(cfg, j.sequence, units[..i])
    ensures at.ended.None? && at.sequence == j.sequence + i && ReleaseAll(cfg, j, units) == Release(cfg, at, units[i])
    ensures at.sink == j.sink + Joined(ApprovedValues(cfg, j.sequence, units[..i]))
    decreases |units|
  {
    hide Release, Delivers, Joined, Approved;
    JoinedNothing();
    var k := Release(cfg, j, units[0]);
    if k.ended.Some? {
      EndedStays(cfg, k, units[1..]);
      assert units[..0] == [];
      return 0, j;
    }
    ReleaseGoesOnIff(cfg, j, units[0]);
    DeliversIsApproved(cfg, j.sequence, units[0]);
    var rest;
    rest, at := FirstFailure(cfg, k, units[1..]);
    i := rest + 1;
    assert units[..i][1..] == units[1..][..rest];
    AllDeliverFirst(cfg, j.sequence, units[..i]);
    var value, values := Approved(cfg, j.sequence, units[0]).value, ApprovedValues(cfg, j.sequence + 1, units[1..][..rest]);
    JoinedMore(value, values);
    Regroup(j.sink, value, Joined(values));
  }

  /** The first i units were delivered, and the next one, released from the journal they leave, ended the stream. */
  ghost predicate StoppedAt(cfg: Config, units: seq<bytes>, k: Journal, i: nat, at: Journal) {
    && i < |units| && AllDeliver(cfg, 0, units[..i])
    && at.ended.None? && at.sequence == i && at.sink == Joined(ApprovedValues(cfg, 0, units[..i]))
    && k == Release(cfg, at, units[i]) && k.ended.Some?
  }

  /** Framing failed behind units that had all been delivered. */
  ghost predicate StoppedByFraming(cfg: Config, input: bytes, k: Journal)
    requires cfg.Compiled()
  {
    var units := if cfg.profile == WholeResponse then [] else Units(cfg, input);
    && CutEnd(cfg, input).Some? && k.ended == CutEnd(cfg, input)
    && AllDeliver(cfg, 0, units) && k.sink == Joined(ApprovedValues(cfg, 0, units)) && k.sequence == |units|
    && k.decision == PASS_DECISION.(disposition := FAULT)
  }

  /**
   * Whatever was not delivered: a stream that does not end in success was stopped at its first unit out of order, with
   * everything before it delivered and nothing behind it (WhyReleaseEnds and WhatReleaseLeaves say how), or by framing.
   */
  lemma UndeliveredIs(cfg: Config, writes: seq<bytes>)
    requires cfg.Compiled() && Run(cfg, writes).ended != Some(Success)
    ensures var input, k := Concat(writes), Run(cfg, writes);
            StoppedByFraming(cfg, input, k) || exists i: nat, at :: StoppedAt(cfg, Units(cfg, input), k, i, at)
  {
    hide CutAll, Release, Drain, Finish, Outcome, AllDeliver, Joined, ReleaseAll, ApprovedValues, Approved, Delivers;
    var input := Concat(writes);
    var units := Units(cfg, input);
    PartitionIndependence(cfg, writes, writes);
    OutcomeIsFold(cfg, input);
    if ReleaseAll(cfg, EMPTY, units).ended.Some? && !(cfg.profile == WholeResponse && CutEnd(cfg, input).Some?) {
      var i, at := FirstFailure(cfg, EMPTY, units);
      assert StoppedAt(cfg, units, Run(cfg, writes), i, at);
    } else {
      ReleaseAllGoesOnIff(cfg, EMPTY, units);
      NothingDelivered(cfg);
      NothingFits(cfg, units);
    }
  }

  lemma NothingDelivered(cfg: Config)
    ensures AllDeliver(cfg, 0, []) && Joined(ApprovedValues(cfg, 0, [])) == []
  {
  }

  /** A stream ends in the transport only after the transport failed or answered another count than it was given. */
  lemma TransportEndsOnlyByTransport(cfg: Config, writes: seq<bytes>)
    requires cfg.Compiled() && Run(cfg, writes).ended == Some(Transport)
    ensures exists i: nat :: TransportFailedAt(cfg, Units(cfg, Concat(writes)), i)
  {
    hide CutAll, Release, Drain, Finish, Outcome, AllDeliver, ReleaseAll, Approved;
    var input := Concat(writes);
    var units := Units(cfg, input);
    PartitionIndependence(cfg, writes, writes);
    OutcomeIsFold(cfg, input);
    CutEndIsFailure(cfg, input);
    var i, at := FirstFailure(cfg, EMPTY, units);
    WhyReleaseEnds(cfg, at, units[i]);
    assert TransportFailedAt(cfg, units, i);
  }

  /** All units before i were delivered, unit i was approved, and the transport did not take its value. */
  predicate TransportFailedAt(cfg: Config, units: seq<bytes>, i: nat) {
    i < |units| && AllDeliver(cfg, 0, units[..i]) && Approved(cfg, i, units[i]).Some? && !Takes(cfg, i, Approved(cfg, i, units[i]).value)
  }

  /**
   * End to end: over every input and every split of it, what reaches the transport is a prefix of the approved values of
   * the leading units, in order, and each of those values passed a full pipeline run on its unit with an allowed kind.
   */
  lemma OnlyPassedValuesReachSink(cfg: Config, policy: nat -> Policy<bytes>, writes: seq<bytes>)
    requires cfg.Compiled() && GuardedBy(cfg, policy)
    ensures var units := Units(cfg, Concat(writes));
            var values := ApprovedValues(cfg, 0, units);
            && Run(cfg, writes).sink <= Joined(values)
            && forall i :: 0 <= i < |values| ==> PassedUnit(cfg, policy, i, units[i], values[i])
  {
    hide CutAll, Release, ReleaseAll, Drain, Finish, Outcome, Approved, GuardedBy, PassedUnit;
    var input := Concat(writes);
    var units := Units(cfg, input);
    PartitionIndependence(cfg, writes, writes);
    ReleaseAllSendsApproved(cfg, EMPTY, units);
    if cfg.profile == WholeResponse {
      WholeResponseOutcome(cfg, input);
      OneUnit(cfg, EMPTY, input);
    } else {
      OutcomeIsCutThenFold(cfg, input);
    }
    var values := ApprovedValues(cfg, 0, units);
    forall i | 0 <= i < |values|
      ensures PassedUnit(cfg, policy, i, units[i], values[i])
    {
      ApprovedPassed(cfg, policy, i, units[i]);
    }
  }

  lemma ApprovedPassed(cfg: Config, policy: nat -> Policy<bytes>, n: nat, unit: bytes)
    requires GuardedBy(cfg, policy)
    ensures Approved(cfg, n, unit).Some? ==> PassedUnit(cfg, policy, n, unit, Approved(cfg, n, unit).value)
  {
    assert GuardedAt(cfg, policy, n, unit);
  }

  lemma OneUnit(cfg: Config, j: Journal, input: bytes)
    requires j.ended.None?
    ensures ReleaseAll(cfg, j, [input]) == Release(cfg, j, input)
  {
    assert [input][1..] == [];
  }

  ghost predicate PassedUnit(cfg: Config, policy: nat -> Policy<bytes>, n: nat, unit: bytes, value: bytes) {
    exists kind :: Passed(policy(n), 0, unit, value, kind)
  }
}
