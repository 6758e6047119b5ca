/** The stateful stream: bytes in, checked units out, one terminal state (release.go). */
module StreamProcessors {
  import opened Wrappers
  import opened Utf8
  import opened StreamBuffers
  import opened Framing
  import opened Reports
  import opened GuardedOutput
  import opened ReleaseSpec
  import opened ReleaseTheorems

  datatype StreamOutcome = StreamOutcome(category: Option<Category>, decision: Decision, sequence: nat,
                                         releasedBytes: nat, receivedBytes: nat, peakPendingBytes: nat,
                                         terminal: bool, fallback: bool)

  /** Errors as callers see them; a release error keeps the outcome at the time of the failure. */
  datatype StreamError = NoFailure | ReleaseError(outcome: StreamOutcome) | ClosedPipe | FallbackUnavailable

  const INITIAL := StreamOutcome(None, PASS_DECISION, 0, 0, 0, 0, false, false)

  class StreamProcessor {
    const cfg: Config
    const pending: StreamBuffer
    const framer: FrameScanner
    var outcome: StreamOutcome
    var terminalErr: StreamError
    var fallbackAttempted: bool

    // What the transport has accepted, and how many bytes and units have left the ring.
    ghost var sink: bytes
    ghost var fallbackSink: bytes
    ghost var consumed: nat
    ghost var cut: nat

    ghost function Journal(): Journal
      reads this
    {
      ReleaseSpec.Journal(sink, outcome.sequence, outcome.decision, if outcome.terminal then outcome.category else None)
    }

    ghost function Waiting(): bytes
      requires pending.Valid()
      reads this, pending, pending.data
    {
      pending.Contents()
    }

    /** The limits, kept in every reachable state. */
    ghost predicate Bounded()
      reads this, pending, pending.data, framer
    {
      && outcome.receivedBytes == pending.appended <= cfg.maxInput
      && outcome.releasedBytes == |sink|
      && |sink| + |fallbackSink| <= cfg.maxOutput
      && pending.data.Length <= outcome.peakPendingBytes <= cfg.Capacity()
      && (!fallbackAttempted ==> fallbackSink == [])
      && (fallbackAttempted ==> outcome.terminal)
      && (outcome.terminal <==> outcome.category.Some?)
      && (terminalErr == NoFailure <==> !outcome.terminal || outcome.category == Some(Success))
    }

    /** The scanning and copying done so far, against the bytes received and the units cut. */
    ghost predicate Accounted()
      reads this, pending, framer
    {
      && pending.extracted <= outcome.receivedBytes
      && pending.grown <= 2 * outcome.receivedBytes
      && framer.visited <= outcome.receivedBytes + outcome.sequence
      && cut <= outcome.sequence + 1
    }

    /** While the stream is live, the framer has seen exactly a prefix of the waiting bytes. */
    ghost predicate Live()
      requires pending.Valid()
      reads this, pending, pending.data, framer
    {
      && pending.Amortised(cfg.Capacity())
      && consumed + pending.size == outcome.receivedBytes
      && pending.extracted == consumed
      && cut == outcome.sequence
      && framer.offset <= pending.size
      && framer.visited <= consumed + framer.offset + cut
      && (cfg.UnitJson() ==> framer.State() == Scan(START, Waiting()[..framer.offset], cfg.maxUnit))
      && (cfg.UnitLines() ==> NEWLINE !in Waiting()[..framer.offset])
      && (cfg.profile != ValidatedUnits ==> framer.offset == 0)
    }

    ghost predicate Core()
      reads this, pending, pending.data, framer
    {
      && cfg.Compiled()
      && pending.Valid()
      && Bounded()
      && Accounted()
      && (outcome.terminal ==> pending.size == 0)
      && (!outcome.terminal ==> Live())
    }

    /** Between calls a live stream holds no unit it could already release. */
    ghost predicate Valid()
      reads this, pending, pending.data, framer
    {
      && Core()
      && (!outcome.terminal && Waiting() != [] ==> Cut(cfg, Waiting(), false) == Wait)
      && (!outcome.terminal && cfg.profile == WholeResponse ==> sink == [])
      && Honest()
    }

    /** With a checked guard, the one category that admits a fallback stands for a deny or a correction. */
    ghost predicate Honest()
      reads this
    {
      CheckedGuard(cfg) ==> BlockedByPolicy(Journal())
    }

    constructor (cfg: Config)
      requires cfg.Compiled()
      ensures Valid() && fresh(pending) && fresh(pending.data) && fresh(framer) && this.cfg == cfg
      ensures Journal() == EMPTY && Waiting() == [] && outcome == INITIAL && !fallbackAttempted && fallbackSink == []
    {
      this.cfg := cfg;
      pending := new StreamBuffer();
      framer := new FrameScanner();
      outcome, terminalErr, fallbackAttempted := INITIAL, NoFailure, false;
      sink, fallbackSink, consumed, cut := [], [], 0, 0;
    }

    /** Work over a whole run: each byte is visited once plus one lookahead a unit, and copied at most four times. */
    lemma WorkIsLinear()
      requires Valid()
      ensures framer.visited <= outcome.receivedBytes + outcome.sequence
      ensures pending.copied <= 4 * outcome.receivedBytes
    {
    }

    /** The limits in every reachable state, and what a terminal stream has given up. */
    lemma WithinLimits()
      requires Valid()
      ensures outcome.receivedBytes <= cfg.maxInput
      ensures outcome.releasedBytes == |sink| && |sink| + |fallbackSink| <= cfg.maxOutput
      ensures outcome.peakPendingBytes <= cfg.maxPending && (cfg.UnitLines() ==> outcome.peakPendingBytes <= cfg.maxUnit)
      ensures outcome.terminal ==> Waiting() == [] && outcome.category.Some?
      ensures cfg.profile == WholeResponse && !outcome.terminal ==> sink == []
    {
    }

    /** In every reachable state: a stream that would admit a fallback was refused by policy and not by a fault. */
    lemma BlockedMeansRefused()
      requires Valid() && CheckedGuard(cfg)
      ensures outcome.category == Some(Blocked) ==>
                outcome.terminal && (outcome.decision.disposition == DENY || outcome.decision.disposition == CORRECTION)
    {
    }

    /** Draining and finishing keep the category honest. */
    lemma StaysHonest(j: Journal, s: bytes)
      requires cfg.Compiled() && (CheckedGuard(cfg) ==> BlockedByPolicy(j))
      ensures CheckedGuard(cfg) ==> BlockedByPolicy(Drain(cfg, j, s, false).0) && BlockedByPolicy(Finish(cfg, j, s))
    {
      if CheckedGuard(cfg) {
        DrainBlockedByPolicy(cfg, j, s, false);
        FinishBlockedByPolicy(cfg, j, s);
      }
    }

    /** What no release step touches: the received count and the fallback; the ring may be exchanged for a new one. */
    twostate predicate Kept()
      reads this, pending
    {
      && (pending.data == old(pending.data) || fresh(pending.data))
      && fallbackSink == old(fallbackSink)
      && fallbackAttempted == old(fallbackAttempted)
      && outcome.receivedBytes == old(outcome.receivedBytes)
    }

    /** The only way into a failed state: everything pending is dropped and the outcome is fixed. */
    method Fail(category: Category, failure: Option<Decision>, decision: Decision)
      requires cfg.Compiled() && pending.Valid() && Bounded() && Accounted()
      requires !outcome.terminal && category != Success
      modifies this, pending, framer
      ensures Core() && Kept()
      ensures outcome.terminal && Journal() == ReleaseSpec.Fail(old(Journal()), category, failure, decision)
      ensures terminalErr == ReleaseError(outcome) && Waiting() == []
    {
      var d := if failure.Some? then failure.value else decision;
      if category == Timeout || d.disposition == NONE {
        d := d.(disposition := FAULT);
      }
      pending.Clear();
      framer.Reset();
      outcome := outcome.(category := Some(category), decision := d, terminal := true);
      terminalErr := ReleaseError(outcome);
    }

    /** newlineUnitBoundary with a final flush, compared with the whole length, as a loop over the value. */
    method IsOneLine(s: bytes) returns (ok: bool)
      ensures ok <==> NewlineBoundary(s) == 0 || NewlineBoundary(s) == |s|
    {
      for i := 0 to |s|
        invariant NEWLINE !in s[..i]
      {
        NewlineTurn(s, i + 1);
        if s[i] == NEWLINE {
          return i + 1 == |s|;
        }
      }
      NewlineBoundaryIs(s);
      assert s[..|s|] == s;
      return true;
    }

    /** The first byte that is not whitespace opens a container. */
    method StartsContainer(s: bytes) returns (ok: bool)
      ensures ok <==> OpensContainer(s)
    {
      for i := 0 to |s|
        invariant FirstToken(s) == FirstToken(s[i..])
      {
        if !IsSpace(s[i]) {
          return s[i] == LEFT_BRACE || s[i] == LEFT_BRACKET;
        }
        assert s[i..][1..] == s[i + 1..];
      }
      return false;
    }

    method IsValidRepresentation(s: bytes) returns (ok: bool)
      ensures ok <==> ValidRepresentation(cfg, s)
    {
      if !ValidString(s) {
        return false;
      }
      if cfg.jsonValues {
        if !cfg.jsonValid(s) {
          return false;
        }
        if cfg.profile == ValidatedUnits {
          ok := StartsContainer(s);
          return;
        }
        return true;
      }
      if cfg.profile != ValidatedUnits {
        return true;
      }
      ok := IsOneLine(s);
    }

    /** The window of a best-effort chunk, cut at its last whole character. */
    method NextChunk(final: bool) returns (n: nat, bad: bool)
      requires pending.Valid() && pending.size > 0
      requires cfg.profile == BestEffort && pending.size <= cfg.maxPending
      ensures match CutChunk(cfg, Waiting(), final)
              case Wait => !bad && n == 0
              case Unit(k) => !bad && n == k > 0
              case Refuse(c) => bad && c == Incomplete
    {
      if pending.size < cfg.maxUnit && !final {
        return 0, false;
      }
      n, bad := RunesWithin(Min(pending.size, cfg.maxUnit));
      if !bad && n == 0 && final {
        return 0, true;
      }
    }

    /** The loop that walks the window's characters. */
    method RunesWithin(size: nat) returns (n: nat, bad: bool)
      requires pending.Valid() && size <= pending.size
      ensures match WholeRunes(Waiting()[..size], 0)
              case BadRune => bad
              case Upto(k) => !bad && n == k
    {
      hide WholeRunes, FullRune, IsMalformed, DecodeRune;
      ghost var window := Waiting()[..size];
      var offset := 0;
      while offset < size
        invariant offset <= size && WholeRunes(window, 0) == WholeRunes(window, offset)
        decreases size - offset
      {
        var at := PeekRune(offset, Min(UTF_MAX, size - offset));
        WindowSlice(Waiting(), size, offset);
        RuneStep(window, offset, at);
        if !FullRune(at) {
          return offset, false;
        }
        if IsMalformed(at) {
          return 0, true;
        }
        offset := offset + DecodeRune(at).size;
      }
      WindowEnd(window);
      return size, false;
    }

    lemma WindowEnd(window: bytes)
      ensures WholeRunes(window, |window|) == Upto(|window|)
    {
    }

    lemma WindowSlice(s: bytes, size: nat, offset: nat)
      requires offset < size <= |s|
      ensures var n := Min(UTF_MAX, size - offset);
              s[offset..offset + n] == s[..size][offset..Min(|s[..size]|, offset + UTF_MAX)]
    {
    }

    method PeekRune(offset: nat, available: nat) returns (at: bytes)
      requires pending.Valid() && offset + available <= pending.size
      ensures at == Waiting()[offset..offset + available]
    {
      at := [];
      for i := 0 to available
        invariant at == Waiting()[offset..offset + i]
      {
        var b := pending.At(offset + i);
        at := at + [b];
      }
    }

    /** nextJSONUnit. */
    method NextJsonUnit(final: bool) returns (n: nat, ok: bool)
      requires Core() && !outcome.terminal && pending.size > 0 && cfg.UnitJson()
      modifies this, pending, framer
      ensures NextUnitDone(old(Journal()), old(Waiting()), final, n, ok)
      ensures ok ==> outcome == old(outcome) && pending.data == old(pending.data)
      ensures Kept()
    {
      var err;
      n, err := framer.Json(pending, cfg.maxUnit, final);
      ScanSane(START, Waiting(), cfg.maxUnit);
      if err != FrameError.Fine {
        Fail(if err == UnitLimit then Limit else Malformed, None, PASS_DECISION);
        return 0, false;
      }
      if n == 0 && final {
        Fail(Incomplete, None, PASS_DECISION);
        return 0, false;
      }
      assert Waiting()[..pending.size] == Waiting();
      return n, true;
    }

    /** How a search for the next unit ends: refused, found, or waiting for more. */
    ghost predicate NextUnitDone(j: Journal, s: bytes, final: bool, n: nat, ok: bool)
      reads this, pending, pending.data, framer
    {
      && s != []
      && match Cut(cfg, s, final) {
           case Refuse(category) => !ok && Core() && outcome.terminal && Journal() == FailPlain(j, category)
           case Unit(k) => ok && n == k && Found(n) && Journal() == j && Waiting() == s
           case Wait => ok && n == 0 && Core() && !outcome.terminal && Journal() == j && Waiting() == s
         }
    }

    /** A unit of n bytes has been found and not yet released: the framer stands at its end. */
    ghost predicate Found(n: nat)
      reads this, pending, pending.data, framer
    {
      && cfg.Compiled() && pending.Valid() && Bounded() && Accounted()
      && !outcome.terminal
      && pending.Amortised(cfg.Capacity())
      && consumed + pending.size == outcome.receivedBytes
      && pending.extracted == consumed
      && cut == outcome.sequence
      && 0 < n <= pending.size
      && framer.visited <= consumed + n + cut + (if n < pending.size then 1 else 0)
    }

    /** A newline unit. */
    method NextLine(final: bool) returns (n: nat, ok: bool)
      requires Core() && !outcome.terminal && 0 < pending.size <= cfg.Capacity() && cfg.UnitLines()
      modifies this, pending, framer
      ensures NextUnitDone(old(Journal()), old(Waiting()), final, n, ok)
      ensures Kept()
    {
      n := framer.Newline(pending, final);
      assert Waiting()[..pending.size] == Waiting();
      if n == 0 && pending.size > cfg.maxUnit {
        assert false; // the ring of a line stream never outgrows one unit
      }
      return n, true;
    }

    method NextUnit(final: bool) returns (n: nat, ok: bool)
      requires Core() && !outcome.terminal && 0 < pending.size <= cfg.Capacity() && cfg.profile != WholeResponse
      modifies this, pending, framer
      ensures NextUnitDone(old(Journal()), old(Waiting()), final, n, ok)
      ensures Kept()
    {
      if cfg.profile == ValidatedUnits && cfg.jsonValues {
        n, ok := NextJsonUnit(final);
        return;
      }
      if cfg.profile == ValidatedUnits {
        n, ok := NextLine(final);
        return;
      }
      var bad;
      n, bad := NextChunk(final);
      if bad {
        Fail(Incomplete, None, PASS_DECISION);
        return 0, false;
      }
      return n, true;
    }

    /** The irreversible write at the end of validateAndRelease. */
    method Transmit(approved: bytes, decision: Decision) returns (ok: bool)
      requires ReadyToRelease() && |sink| + |approved| <= cfg.maxOutput
      modifies this, pending, framer
      ensures Journal() == Send(cfg, old(Journal()).(decision := decision), approved)
      ensures Released(ok)
      ensures Kept()
    {
      var w := cfg.transport(outcome.sequence, approved);
      outcome := outcome.(decision := decision, sequence := outcome.sequence + 1);
      if w.count < 0 || w.count > |approved| {
        Fail(Transport, None, decision);
        return false;
      }
      outcome := outcome.(releasedBytes := outcome.releasedBytes + w.count);
      sink := sink + approved[..w.count];
      if w.failed || w.count != |approved| {
        Fail(Transport, None, decision);
        return false;
      }
      return true;
    }

    /** The state while a unit is being validated; its cut is already counted. */
    ghost predicate ReadyToRelease()
      reads this, pending, pending.data, framer
    {
      && cfg.Compiled() && pending.Valid() && Bounded() && Accounted()
      && !outcome.terminal && cut == outcome.sequence + 1
    }

    /** A release either numbers one more unit and changes nothing else, or ends the stream. */
    twostate predicate Released(ok: bool)
      reads this, pending, pending.data, framer
    {
      && ok == !outcome.terminal
      && (!ok ==> Core() && pending.Valid() && pending.Contents() == [])
      && (ok ==> pending.data == old(pending.data) && unchanged(pending) && unchanged(framer)
                 && consumed == old(consumed) && cut == old(cut) && cut == outcome.sequence && Bounded())
    }

    /** validateAndRelease: representation, guard, representation again, limits, transport. */
    method ValidateAndRelease(value: bytes) returns (ok: bool)
      requires ReadyToRelease()
      modifies this, pending, framer
      ensures Journal() == Release(cfg, old(Journal()), value)
      ensures Released(ok) && Kept()
    {
      if !ValidString(value) {
        Fail(Incomplete, None, PASS_DECISION);
        return false;
      }
      var valid := IsValidRepresentation(value);
      if !valid {
        Fail(Malformed, None, PASS_DECISION);
        return false;
      }
      var call := cfg.guard(outcome.sequence, value);
      if call.ScopeFailed? {
        Fail(ValidatorFault, call.failure, PASS_DECISION);
        return false;
      }
      ok := CheckDelivery(call.delivery, call.err, call.cancelled, value);
    }

    /** The second half of validateAndRelease, from the delivery's answer on. */
    method CheckDelivery(delivery: GuardedDelivery<bytes>, err: GuardError, cancelled: bool, ghost value: bytes) returns (ok: bool)
      requires ReadyToRelease()
      requires ValidString(value) && ValidRepresentation(cfg, value)
      requires cfg.guard(outcome.sequence, value) == Guarded(delivery, err, cancelled)
      modifies this, pending, framer
      ensures Journal() == Release(cfg, old(Journal()), value)
      ensures Released(ok) && Kept()
    {
      if cancelled {
        Fail(Timeout, Carried(err), delivery.decision);
        return false;
      }
      if err != NoError {
        var category := Blocked;
        if delivery.decision.IsSystemFault() {
          category := ValidatorFault;
        }
        Fail(category, Carried(err), delivery.decision);
        return false;
      }
      if !delivery.deliverable {
        Fail(Blocked, None, delivery.decision);
        return false;
      }
      var approved := delivery.value;
      var valid := IsValidRepresentation(approved);
      if !valid {
        Fail(ValidatorFault, None, delivery.decision);
        return false;
      }
      if cfg.profile != WholeResponse && |approved| > cfg.maxUnit {
        Fail(Limit, None, delivery.decision);
        return false;
      }
      if |approved| > cfg.maxOutput - outcome.releasedBytes {
        Fail(Limit, None, delivery.decision);
        return false;
      }
      ok := Transmit(approved, delivery.decision);
    }

    /** A unit of n bytes has been copied out of the ring but still stands in it. */
    ghost predicate Taken(n: nat)
      reads this, pending, pending.data, framer
    {
      && pending.Valid() && pending.Amortised(cfg.Capacity())
      && consumed + pending.size == outcome.receivedBytes == pending.appended
      && pending.extracted == consumed + n
      && 0 < n <= pending.size
      && framer.visited <= consumed + n + cut
    }

    method TakeUnit(n: nat) returns (unit: bytes)
      requires Found(n)
      modifies pending`copied, pending`extracted, `cut
      ensures unit == old(Waiting())[..n] && Taken(n) && ReadyToRelease() && Waiting() == old(Waiting())
    {
      unit := pending.Prefix(n);
      cut := cut + 1;
    }

    /** Moves past a released unit; the framer starts afresh. */
    method Advance(n: nat)
      requires Taken(n) && cfg.Compiled() && Bounded() && !outcome.terminal && cut == outcome.sequence
      modifies pending`head, pending`size, framer, `consumed
      ensures Core() && Waiting() == old(Waiting())[n..]
    {
      pending.Consume(n);
      consumed := consumed + n;
      framer.Reset();
    }

    /** Takes the unit out of the ring, releases it, and moves past it. */
    method ReleaseUnit(n: nat) returns (ok: bool)
      requires Found(n)
      modifies this, pending, framer
      ensures Journal() == Release(cfg, old(Journal()), old(Waiting())[..n])
      ensures Core() && Kept() && ok == !outcome.terminal
      ensures Waiting() == if ok then old(Waiting())[n..] else []
    {
      var unit := TakeUnit(n);
      label Validating:
      ok := ValidateAndRelease(unit);
      if ok {
        assert pending.Valid() && Waiting() == old@Validating(Waiting());
        Advance(n);
      }
    }

    /** releasePending: the units the ring already shows, in order. */
    method ReleasePending(final: bool) returns (ok: bool)
      requires Core() && !outcome.terminal && pending.size <= cfg.Capacity() && cfg.profile != WholeResponse
      modifies this, pending, framer
      ensures Core() && Kept() && ok == !outcome.terminal
      ensures (Journal(), Waiting()) == Drain(cfg, old(Journal()), old(Waiting()), final)
    {
      ghost var goal := Drain(cfg, Journal(), Waiting(), final);
      while pending.size > 0
        invariant Core() && Kept() && !outcome.terminal
        invariant pending.size <= cfg.Capacity()
        invariant Drain(cfg, Journal(), Waiting(), final) == goal
        decreases pending.size
      {
        ghost var s := Waiting();
        CutBounds(cfg, s, final);
        var n, found := NextUnit(final);
        if !found {
          return false;
        }
        if n == 0 {
          return true;
        }
        if n > cfg.maxUnit {
          assert false; // no unit is longer than its limit
        }
        ok := ReleaseUnit(n);
        if !ok {
          return;
        }
      }
      return true;
    }

    /** Room for the next slice of input; zero means the pending bytes have hit a limit. */
    method Room() returns (room: nat)
      requires Valid() && !outcome.terminal
      ensures room == cfg.Capacity() - pending.size
    {
      room := cfg.maxPending - pending.size;
      if cfg.profile == ValidatedUnits && !cfg.jsonValues {
        room := Min(room, cfg.maxUnit - pending.size);
      }
    }

    /** Puts one slice into the ring and counts it. */
    method Buffer(slice: bytes)
      requires Valid() && !outcome.terminal
      requires pending.size + |slice| <= cfg.Capacity() && outcome.receivedBytes + |slice| <= cfg.maxInput
      modifies this, pending, pending.data
      ensures Core() && !outcome.terminal && (pending.data == old(pending.data) || fresh(pending.data))
      ensures Journal() == old(Journal()) && Waiting() == old(Waiting()) + slice
      ensures outcome.receivedBytes == old(outcome.receivedBytes) + |slice|
      ensures FallbackKept()
      ensures pending.size == old(pending.size) + |slice|
    {
      hide Unrolled, Scan, Cut, CheckedGuard, BlockedByPolicy, StreamBuffer.Amortised;
      PrefixStays(Waiting(), slice, framer.offset);
      var budget := cfg.maxPending;
      if cfg.profile == ValidatedUnits && !cfg.jsonValues {
        budget := Min(budget, cfg.maxUnit);
      }
      pending.Append(slice, budget);
      outcome := outcome.(receivedBytes := outcome.receivedBytes + |slice|,
                          peakPendingBytes := Max(outcome.peakPendingBytes, pending.data.Length));
    }

    lemma PrefixStays(s: bytes, more: bytes, n: nat)
      ensures n <= |s| ==> (s + more)[..n] == s[..n]
    {
    }

    /** One turn of acceptInput: buffer a slice, then release what it completes. */
    method AcceptSlice(slice: bytes) returns (ok: bool)
      requires Valid() && !outcome.terminal && slice != []
      requires pending.size + |slice| <= cfg.Capacity() && outcome.receivedBytes + |slice| <= cfg.maxInput
      modifies this, pending, pending.data, framer
      ensures Valid() && ok == !outcome.terminal
      ensures (Journal(), Waiting()) == Drain(cfg, old(Journal()), old(Waiting()) + slice, false)
      ensures outcome.receivedBytes == old(outcome.receivedBytes) + |slice|
      ensures pending.data == old(pending.data) || fresh(pending.data)
      ensures FallbackKept()
      ensures cfg.profile == WholeResponse ==> sink == old(sink) && ok
    {
      hide CheckedGuard, BlockedByPolicy;
      ghost var s := Waiting() + slice;
      StaysHonest(Journal(), s);
      Buffer(slice);
      DrainLeavesWaiting(cfg, Journal(), s);
      if cfg.profile == WholeResponse {
        return true;
      }
      ok := ReleasePending(false);
    }

    /** One turn of acceptInput: as much of the remaining input as the ring has room for. */
    method AcceptSome(left: bytes) returns (n: nat, ok: bool)
      requires Valid() && !outcome.terminal && left != [] && outcome.receivedBytes + |left| <= cfg.maxInput
      modifies this, pending, pending.data, framer
      ensures Valid() && ok == !outcome.terminal && n <= |left| && (ok ==> n > 0)
      ensures Drain(cfg, Journal(), Waiting() + left[n..], false) == Drain(cfg, old(Journal()), old(Waiting()) + left, false)
      ensures outcome.receivedBytes == old(outcome.receivedBytes) + n
      ensures FallbackKept() && (pending.data == old(pending.data) || fresh(pending.data))
      ensures cfg.profile == WholeResponse ==> sink == old(sink)
    {
      ghost var j, s := Journal(), Waiting();
      var room := Room();
      if room <= 0 {
        FullRing(s, left);
        Fail(Limit, None, PASS_DECISION);
        return 0, false;
      }
      n := Min(room, |left|);
      assert s + left == (s + left[..n]) + left[n..];
      DrainAppend(cfg, j, s + left[..n], left[n..], false);
      ok := AcceptSlice(left[..n]);
    }

    twostate predicate FallbackKept()
      reads this
    {
      fallbackSink == old(fallbackSink) && fallbackAttempted == old(fallbackAttempted)
    }

    /**
     * acceptInput: the write is processed in slices that fit the ring; however it is sliced, the stream ends
     * up as if all of p had been appended and drained at once.
     */
    method AcceptInput(p: bytes) returns (accepted: nat, ok: bool)
      requires Valid() && !outcome.terminal && outcome.receivedBytes + |p| <= cfg.maxInput
      modifies this, pending, pending.data, framer
      ensures Valid() && ok == !outcome.terminal
      ensures (Journal(), Waiting()) == Drain(cfg, old(Journal()), old(Waiting()) + p, false)
      ensures accepted <= |p| && (ok ==> accepted == |p|)
      ensures outcome.receivedBytes == old(outcome.receivedBytes) + accepted
      ensures FallbackKept() && (pending.data == old(pending.data) || fresh(pending.data))
      ensures cfg.profile == WholeResponse ==> sink == old(sink)
    {
      accepted := 0;
      var left := p;
      ok := true;
      ghost var goal := Drain(cfg, Journal(), Waiting() + p, false);
      while |left| > 0 && ok
        invariant Valid() && ok == !outcome.terminal
        invariant accepted + |left| == |p|
        invariant outcome.receivedBytes == old(outcome.receivedBytes) + accepted
        invariant Drain(cfg, Journal(), Waiting() + left, false) == goal
        invariant FallbackKept() && (pending.data == old(pending.data) || fresh(pending.data))
        invariant cfg.profile == WholeResponse ==> sink == old(sink)
        decreases |left|, ok
      {
        var n;
        n, ok := AcceptSome(left);
        left := left[n..];
        accepted := accepted + n;
      }
      if ok {
        assert Waiting() + left == Waiting();
      }
    }

    lemma FullRing(s: bytes, more: bytes)
      requires cfg.Compiled() && |s| == cfg.Capacity() && Cut(cfg, s, false) == Wait && more != []
      ensures forall j: Journal :: j.ended.None? ==> Drain(cfg, j, s + more, false) == (FailPlain(j, Limit), [])
    {
      if cfg.UnitJson() {
        JsonNeverFillsRing(cfg, s);
      } else {
        FullRingRefuses(cfg, s, more);
      }
    }

    /** Write and WriteContext; `cancelled` is the context's state on entry. */
    method WriteContext(p: bytes, cancelled: bool) returns (n: nat, err: StreamError)
      requires Valid()
      modifies this, pending, pending.data, framer
      ensures Valid() && (pending.data == old(pending.data) || fresh(pending.data))
      ensures FallbackKept()
      ensures old(outcome.terminal) ==>
                && outcome == old(outcome) && sink == old(sink) && terminalErr == old(terminalErr) && n == 0
                && err == if terminalErr == NoFailure then ClosedPipe else terminalErr
      ensures !old(outcome.terminal) && old(outcome.receivedBytes) + |p| > cfg.maxInput ==>
                n == 0 && Journal() == FailPlain(old(Journal()), Limit)
      ensures !old(outcome.terminal) && old(outcome.receivedBytes) + |p| <= cfg.maxInput && cancelled ==>
                n == 0 && Journal() == FailPlain(old(Journal()), Timeout)
      ensures !old(outcome.terminal) && old(outcome.receivedBytes) + |p| <= cfg.maxInput && !cancelled ==>
                (Journal(), Waiting()) == Drain(cfg, old(Journal()), old(Waiting()) + p, false)
      ensures !old(outcome.terminal) ==> err == terminalErr && (err == NoFailure <==> !outcome.terminal)
      ensures outcome.receivedBytes == old(outcome.receivedBytes) + n && n <= |p| && (!outcome.terminal ==> n == |p|)
      ensures cfg.profile == WholeResponse ==> sink == old(sink)
    {
      if outcome.terminal {
        if terminalErr != NoFailure {
          return 0, terminalErr;
        }
        return 0, ClosedPipe;
      }
      if |p| > cfg.maxInput - outcome.receivedBytes {
        Fail(Limit, None, PASS_DECISION);
        return 0, terminalErr;
      }
      if cancelled {
        Fail(Timeout, None, PASS_DECISION);
        return 0, terminalErr;
      }
      DrainKeeps(cfg, Journal(), Waiting() + p, false);
      var ok;
      n, ok := AcceptInput(p);
      err := terminalErr;
    }

    /** The release that Complete performs before it declares success. */
    method ReleaseRest() returns (ok: bool)
      requires Valid() && !outcome.terminal
      modifies this, pending, framer
      ensures Kept() && ok == !outcome.terminal
      ensures !ok ==> Core() && Journal() == Finish(cfg, old(Journal()), old(Waiting()))
      ensures ok ==> pending.Valid() && Bounded() && Accounted() && Close(Journal()) == Finish(cfg, old(Journal()), old(Waiting()))
    {
      if cfg.profile == WholeResponse {
        if pending.size > cfg.maxUnit {
          Fail(Limit, None, PASS_DECISION);
          return false;
        }
        var value := pending.Prefix(pending.size);
        assert value == old(Waiting());
        cut := cut + 1;
        ok := ValidateAndRelease(value);
        return;
      }
      ok := ReleasePending(true);
    }

    /** Complete: the trusted end of the input; later calls return the same outcome. */
    method Complete(cancelled: bool) returns (result: StreamOutcome, err: StreamError)
      requires Valid()
      modifies this, pending, framer
      ensures Valid() && outcome.terminal && result == outcome && err == terminalErr
      ensures pending.data == old(pending.data) || fresh(pending.data)
      ensures FallbackKept()
      ensures old(outcome.terminal) ==> outcome == old(outcome) && sink == old(sink) && terminalErr == old(terminalErr)
      ensures !old(outcome.terminal) ==>
                Journal() == if cancelled then FailPlain(old(Journal()), Timeout)
                             else Finish(cfg, old(Journal()), old(Waiting()))
    {
      if outcome.terminal {
        return outcome, terminalErr;
      }
      if cancelled {
        Fail(Timeout, None, PASS_DECISION);
        return outcome, terminalErr;
      }
      StaysHonest(Journal(), Waiting());
      var ok := ReleaseRest();
      if !ok {
        return outcome, terminalErr;
      }
      pending.Clear();
      framer.Reset();
      outcome := outcome.(terminal := true, category := Some(Success));
      return outcome, NoFailure;
    }

    /** Abort and Close: pending bytes are dropped, nothing is written. The cause may carry a policy failure. */
    method Abort(failure: Option<Decision>) returns (result: StreamOutcome, err: StreamError)
      requires Valid()
      modifies this, pending, framer
      ensures Valid() && outcome.terminal && result == outcome && err == terminalErr
      ensures sink == old(sink) && fallbackSink == old(fallbackSink)
      ensures pending.data == old(pending.data) || fresh(pending.data)
      ensures old(outcome.terminal) ==> outcome == old(outcome) && terminalErr == old(terminalErr)
      ensures !old(outcome.terminal) ==> Journal() == ReleaseSpec.Fail(old(Journal()), Incomplete, failure, PASS_DECISION)
      ensures fallbackAttempted == old(fallbackAttempted)
    {
      if outcome.terminal {
        return outcome, terminalErr;
      }
      Fail(Incomplete, failure, PASS_DECISION);
      return outcome, terminalErr;
    }

    /** A candidate counts as received once it is known to be in order. */
    function FallbackReceived(candidate: bytes): nat {
      if |candidate| <= cfg.maxUnit && |candidate| <= cfg.maxInput && ValidRepresentation(cfg, candidate) then |candidate| else 0
    }

    /**
     * DeliverFallback: at most one separately checked delivery, and only after a policy block. The source
     * stream's outcome and sink stay as they are.
     */
    method DeliverFallback() returns (result: StreamOutcome, err: StreamError)
      requires Valid()
      modifies `fallbackAttempted, `fallbackSink
      ensures Valid()
      ensures old(outcome.category) != Some(Blocked) || old(fallbackAttempted) ==>
                && fallbackSink == old(fallbackSink) && fallbackAttempted == old(fallbackAttempted)
                && result == outcome && err == FallbackUnavailable
      ensures old(outcome.category) == Some(Blocked) && !old(fallbackAttempted) ==> fallbackAttempted
      ensures old(outcome.category) == Some(Blocked) && !old(fallbackAttempted) && cfg.fallback.None? ==>
                fallbackSink == [] && err == FallbackUnavailable
      ensures old(outcome.category) == Some(Blocked) && !old(fallbackAttempted) && cfg.fallback.Some? ==>
                && var f := FallbackDelivery(cfg, |sink|, cfg.fallback.value);
                && result.receivedBytes == FallbackReceived(cfg.fallback.value)
                && fallbackSink == f.sink
                && result.fallback && result.terminal && result.category == f.ended && result.decision == f.decision
                && result.sequence == f.sequence && result.releasedBytes == |f.sink|
                && err == if f.ended == Some(Success) then NoFailure else ReleaseError(result)
    {
      if outcome.category != Some(Blocked) || fallbackAttempted {
        return outcome, FallbackUnavailable;
      }
      fallbackAttempted := true;
      if cfg.fallback.None? {
        return outcome, FallbackUnavailable;
      }
      var candidate := cfg.fallback.value;
      result := INITIAL.(fallback := true, terminal := true);
      if |candidate| > cfg.maxUnit || |candidate| > cfg.maxInput {
        result, err := FallbackFailure(result, Limit, None);
        return;
      }
      var valid := IsValidRepresentation(candidate);
      if !valid {
        var category := Malformed;
        if cfg.profile == ValidatedUnits && !cfg.jsonValues && ValidString(candidate) {
          category := Unsupported;
        }
        result, err := FallbackFailure(result, category, None);
        return;
      }
      result := result.(receivedBytes := |candidate|);
      var call := cfg.fallbackGuard(candidate);
      if call.ScopeFailed? {
        result, err := FallbackFailure(result, ValidatorFault, call.failure);
        return;
      }
      result, err := CheckFallback(result, call.delivery, call.err, call.cancelled, candidate);
    }

    method CheckFallback(start: StreamOutcome, checked: GuardedDelivery<bytes>, failure: GuardError, cancelled: bool,
                         ghost candidate: bytes)
      returns (result: StreamOutcome, err: StreamError)
      requires Valid() && outcome.terminal && fallbackAttempted && fallbackSink == []
      requires start == INITIAL.(fallback := true, terminal := true, receivedBytes := |candidate|)
      requires |candidate| <= cfg.maxUnit && |candidate| <= cfg.maxInput && ValidRepresentation(cfg, candidate)
      requires cfg.fallbackGuard(candidate) == Guarded(checked, failure, cancelled)
      modifies `fallbackSink
      ensures Valid()
      ensures FallbackResult(FallbackDelivery(cfg, |sink|, candidate), result, err) && result.receivedBytes == |candidate|
    {
      result := start.(decision := checked.decision);
      if cancelled {
        result, err := FallbackFailure(result, Timeout, Carried(failure));
        return;
      }
      if failure != NoError {
        var category := Blocked;
        if checked.decision.IsSystemFault() {
          category := ValidatorFault;
        }
        result, err := FallbackFailure(result, category, Carried(failure));
        return;
      }
      if !checked.deliverable {
        result, err := FallbackFailure(result, Blocked, None);
        return;
      }
      var value := checked.value;
      var valid := IsValidRepresentation(value);
      if !valid {
        result, err := FallbackFailure(result, ValidatorFault, None);
        return;
      }
      if cfg.profile != WholeResponse && |value| > cfg.maxUnit {
        result, err := FallbackFailure(result, Limit, None);
        return;
      }
      if |value| > cfg.maxOutput - outcome.releasedBytes {
        result, err := FallbackFailure(result, Limit, None);
        return;
      }
      result, err := WriteFallback(result, value);
    }

    /** The returned outcome and the fallback sink say what the delivery did. */
    ghost predicate FallbackResult(f: Journal, result: StreamOutcome, err: StreamError)
      reads this
    {
      && fallbackSink == f.sink
      && result.fallback && result.terminal && result.category == f.ended && result.decision == f.decision
      && result.sequence == f.sequence && result.releasedBytes == |f.sink|
      && err == if f.ended == Some(Success) then NoFailure else ReleaseError(result)
    }

    /** The journal that a fallback outcome stands for. */
    ghost function FallbackJournal(result: StreamOutcome): Journal
      reads this
    {
      ReleaseSpec.Journal(fallbackSink, result.sequence, result.decision, None)
    }

    method WriteFallback(start: StreamOutcome, value: bytes) returns (result: StreamOutcome, err: StreamError)
      requires Valid() && outcome.terminal && fallbackAttempted && fallbackSink == []
      requires |sink| + |value| <= cfg.maxOutput && start.fallback && start.terminal
      requires start.sequence == 0 && start.releasedBytes == 0
      modifies `fallbackSink
      ensures Valid()
      ensures FallbackResult(SendFallback(cfg, old(FallbackJournal(start)), value), result, err)
      ensures result.receivedBytes == start.receivedBytes
    {
      var w := cfg.fallbackTransport(value);
      if w.count < 0 || w.count > |value| {
        result, err := FallbackFailure(start, Transport, None);
        return;
      }
      fallbackSink := value[..w.count];
      result := start.(sequence := 1, releasedBytes := w.count);
      if w.failed || w.count != |value| {
        result, err := FallbackFailure(result, Transport, None);
        return;
      }
      result := result.(category := Some(Success));
      err := NoFailure;
    }

    /** fallbackFailure. */
    method FallbackFailure(start: StreamOutcome, category: Category, failure: Option<Decision>)
      returns (result: StreamOutcome, err: StreamError)
      requires start.fallback && start.terminal && start.releasedBytes == |fallbackSink| && category != Success
      ensures FallbackResult(FallbackFail(FallbackJournal(start), category, failure), result, err)
      ensures result.category == Some(category) && err == ReleaseError(result) && result.receivedBytes == start.receivedBytes
      ensures category == Timeout ==> result.decision.disposition == FAULT
      ensures category != Transport ==> result.decision.disposition != NONE
      ensures var known := if failure.Some? then failure.value else start.decision;
              category == Transport || (category != Timeout && known.disposition != NONE) ==> result.decision == known
    {
      var d := if failure.Some? then failure.value else start.decision;
      if category == Timeout || (d.disposition == NONE && category != Transport) {
        d := d.(disposition := FAULT);
      }
      result := start.(decision := d, category := Some(category));
      err := ReleaseError(result);
    }
  }

  /** A producer: any number of writes, then completion. */
  method Produce(stream: StreamProcessor, writes: seq<bytes>) returns (result: StreamOutcome)
    requires stream.Valid() && stream.Journal() == EMPTY && stream.Waiting() == [] && stream.outcome.receivedBytes == 0
    requires |Concat(writes)| <= stream.cfg.maxInput
    modifies stream, stream.pending, stream.pending.data, stream.framer
    ensures stream.Valid() && result == stream.outcome && result.terminal
    ensures stream.Journal() == Outcome(stream.cfg, Concat(writes))
    ensures result.releasedBytes == |Outcome(stream.cfg, Concat(writes)).sink|
  {
    hide Drain, AfterWrites, Cut, StreamProcessor.Live, StreamProcessor.Accounted;
    OneMoreWrite(stream.cfg, writes, 0);
    for i := 0 to |writes|
      invariant stream.Valid()
      invariant stream.pending.data == old(stream.pending.data) || fresh(stream.pending.data)
      invariant (stream.Journal(), stream.Waiting()) == AfterWrites(stream.cfg, writes[..i])
      invariant !stream.outcome.terminal ==> stream.outcome.receivedBytes == |Concat(writes[..i])|
    {
      OneMoreWrite(stream.cfg, writes, i);
      ConcatPrefix(writes, i + 1);
      var n, err := stream.WriteContext(writes[i], false);
    }
    assert writes[..|writes|] == writes;
    StateDependsOnBytesOnly(stream.cfg, writes);
    var err;
    result, err := stream.Complete(false);
  }

  lemma OneMoreWrite(cfg: Config, writes: seq<bytes>, i: nat)
    requires cfg.Compiled() && i <= |writes|
    ensures AfterWrites(cfg, writes[..0]) == (EMPTY, []) && Concat(writes[..0]) == []
    ensures i < |writes| ==> Concat(writes[..i + 1]) == Concat(writes[..i]) + writes[i]
    ensures i < |writes| ==>
              var (j, rest) := AfterWrites(cfg, writes[..i]);
              && AfterWrites(cfg, writes[..i + 1]) == Drain(cfg, j, rest + writes[i], false)
              && (j.ended.Some? ==> Drain(cfg, j, rest + writes[i], false) == (j, []))
  {
    if i < |writes| {
      assert writes[..i + 1][..i] == writes[..i];
    }
  }

  lemma ConcatPrefix(writes: seq<bytes>, i: nat)
    requires i <= |writes|
    ensures |Concat(writes[..i])| <= |Concat(writes)|
    decreases |writes| - i
  {
    if i < |writes| {
      assert writes[..i + 1][..i] == writes[..i];
      ConcatPrefix(writes, i + 1);
    } else {
      assert writes[..i] == writes;
    }
  }
}
