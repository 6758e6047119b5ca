/**
 * What a stream must deliver, as functions of the bytes received (release.go):
 * cut the input into units, then validate and release them in order.
 */
module ReleaseSpec {
  import opened Wrappers
  import opened Utf8
  import opened Framing
  import opened Reports
  import opened GuardedOutput

  datatype Profile = WholeResponse | ValidatedUnits | BestEffort

  datatype Category = Success | Incomplete | Malformed | Limit | Timeout | ValidatorFault | Blocked | Transport | Unsupported

  /** One guarded delivery: the scope factory may fail first, and the context may be cancelled by its end. */
  datatype GuardCall =
    | ScopeFailed(failure: Option<Decision>)
    | Guarded(delivery: GuardedDelivery<bytes>, err: GuardError, cancelled: bool)

  /** What the transport answers; the count is not trusted. */
  datatype WriteResult = WriteResult(count: int, failed: bool)

  /**
   * A compiled configuration with everything the stream calls out to. The guard and the transport are told
   * how many units were approved before, so they may behave differently at every unit.
   */
  datatype Config = Config(profile: Profile, jsonValues: bool,
                           maxInput: nat, maxPending: nat, maxUnit: nat, maxOutput: nat,
                           jsonValid: bytes -> bool,
                           guard: (nat, bytes) -> GuardCall,
                           transport: (nat, bytes) -> WriteResult,
                           fallback: Option<bytes>,
                           fallbackGuard: bytes -> GuardCall,
                           fallbackTransport: bytes -> WriteResult)
  {
    predicate UnitJson() { profile == ValidatedUnits && jsonValues }

    predicate UnitLines() { profile == ValidatedUnits && !jsonValues }

    /** The limits CompileStream insists on. */
    predicate Compiled() {
      && maxInput > 0 && maxPending > 0 && maxUnit > 0 && maxOutput > 0
      && (profile == BestEffort ==> !jsonValues && maxUnit >= UTF_MAX)
      && (UnitJson() ==> maxPending > maxUnit)
    }

    /** How many bytes may wait in the ring. */
    function Capacity(): nat {
      if UnitLines() then Min(maxPending, maxUnit) else maxPending
    }
  }

  /** What has happened so far that cannot be undone, and whether the stream has ended. */
  datatype Journal = Journal(sink: bytes, sequence: nat, decision: Decision, ended: Option<Category>)

  const EMPTY := Journal([], 0, PASS_DECISION, None)

  // ----- representation

  function FirstToken(s: bytes): Option<byte> {
    if s == [] then None else if IsSpace(s[0]) then FirstToken(s[1..]) else Some(s[0])
  }

  predicate OpensContainer(s: bytes) {
    FirstToken(s) == Some(LEFT_BRACE) || FirstToken(s) == Some(LEFT_BRACKET)
  }

  /** validRepresentation: the shape a source unit, its replacement and a fallback must all have. */
  predicate ValidRepresentation(cfg: Config, s: bytes) {
    && ValidString(s)
    && (if cfg.jsonValues then cfg.jsonValid(s) && (cfg.profile == ValidatedUnits ==> OpensContainer(s))
        else cfg.profile == ValidatedUnits ==> NewlineBoundary(s) == 0 || NewlineBoundary(s) == |s|)
  }

  // ----- one unit

  /** The decision a failing stream records: a carried policy failure first, and never a pass. */
  function FailDecision(category: Category, failure: Option<Decision>, decision: Decision): Decision {
    var d := if failure.Some? then failure.value else decision;
    if category == Timeout || d.disposition == NONE then d.(disposition := FAULT) else d
  }

  function Fail(j: Journal, category: Category, failure: Option<Decision>, decision: Decision): Journal {
    j.(decision := FailDecision(category, failure, decision), ended := Some(category))
  }

  function FailPlain(j: Journal, category: Category): Journal {
    Fail(j, category, None, PASS_DECISION)
  }

  function Carried(err: GuardError): Option<Decision> {
    if err.NoError? || err.UnsupportedAction? then None else Some(err.failure)
  }

  /** validateAndRelease. */
  function Release(cfg: Config, j: Journal, value: bytes): Journal {
    if !ValidString(value) then FailPlain(j, Incomplete)
    else if !ValidRepresentation(cfg, value) then FailPlain(j, Malformed)
    else
      match cfg.guard(j.sequence, value)
      case ScopeFailed(failure) => Fail(j, ValidatorFault, failure, PASS_DECISION)
      case Guarded(d, err, cancelled) =>
        if cancelled then Fail(j, Timeout, Carried(err), d.decision)
        else if err != NoError then
          Fail(j, if d.decision.IsSystemFault() then ValidatorFault else Blocked, Carried(err), d.decision)
        else if !d.deliverable then Fail(j, Blocked, None, d.decision)
        else if !ValidRepresentation(cfg, d.value) then Fail(j, ValidatorFault, None, d.decision)
        else if cfg.profile != WholeResponse && |d.value| > cfg.maxUnit then Fail(j, Limit, None, d.decision)
        else if |j.sink| + |d.value| > cfg.maxOutput then Fail(j, Limit, None, d.decision)
        else Send(cfg, j.(decision := d.decision), d.value)
  }

  /** The irreversible step. */
  function Send(cfg: Config, j: Journal, value: bytes): Journal {
    var w := cfg.transport(j.sequence, value);
    var sent := j.(sequence := j.sequence + 1);
    if w.count < 0 || w.count > |value| then Fail(sent, Transport, None, j.decision)
    else
      var written := sent.(sink := j.sink + value[..w.count]);
      if w.failed || w.count != |value| then Fail(written, Transport, None, j.decision) else written
  }

  // ----- where the next unit ends

  datatype CutResult = Wait | Unit(n: nat) | Refuse(category: Category)

  datatype Chunk = Upto(n: nat) | BadRune

  /** Whole characters from offset to the end of the window; an unfinished last one is left out. */
  function WholeRunes(window: bytes, offset: nat): (c: Chunk)
    requires offset <= |window|
    ensures c.Upto? ==> offset <= c.n <= |window|
    decreases |window| - offset
  {
    if offset == |window| then Upto(offset)
    else
      var at := window[offset..Min(|window|, offset + UTF_MAX)];
      if !FullRune(at) then Upto(offset)
      else if IsMalformed(at) then BadRune
      else WholeRunes(window, offset + DecodeRune(at).size)
  }

  function CutJson(cfg: Config, s: bytes, final: bool): CutResult {
    match Scan(START, s, cfg.maxUnit)
    case Boundary(n) => Unit(n)
    case Failed(e) => Refuse(if e == UnitLimit then Limit else Malformed)
    case Going(_, f) => if !final then Wait else if f.complete then Unit(|s|) else Refuse(Incomplete)
  }

  function CutLine(cfg: Config, s: bytes, final: bool): CutResult {
    var n := NewlineBoundary(s);
    if 0 < n <= cfg.Capacity() then Unit(n)
    else if |s| > cfg.Capacity() then Refuse(Limit)
    else if final then Unit(|s|)
    else Wait
  }

  function CutChunk(cfg: Config, s: bytes, final: bool): CutResult {
    if |s| > cfg.maxPending && cfg.maxPending < cfg.maxUnit then Refuse(Limit)
    else if |s| < cfg.maxUnit && !final then Wait
    else
      match WholeRunes(s[..Min(|s|, cfg.maxUnit)], 0)
      case BadRune => Refuse(Incomplete)
      case Upto(n) => if n > 0 then Unit(n) else if final then Refuse(Incomplete) else Wait
  }

  /** The first unit of the bytes that are left, if they already show one. */
  function Cut(cfg: Config, s: bytes, final: bool): CutResult {
    match cfg.profile
    case WholeResponse => if |s| > cfg.maxPending then Refuse(Limit) else Wait
    case ValidatedUnits => if cfg.jsonValues then CutJson(cfg, s, final) else CutLine(cfg, s, final)
    case BestEffort => CutChunk(cfg, s, final)
  }

  lemma CutBounds(cfg: Config, s: bytes, final: bool)
    requires cfg.Compiled() && s != []
    ensures var c := Cut(cfg, s, final); c.Unit? ==> 0 < c.n <= |s| && c.n <= cfg.maxUnit
  {
    if cfg.UnitJson() {
      ScanSane(START, s, cfg.maxUnit);
    }
  }

  // ----- the whole stream

  /** Releases every unit the bytes already show; what is left waits. */
  function Drain(cfg: Config, j: Journal, s: bytes, final: bool): (Journal, bytes)
    requires cfg.Compiled()
    decreases |s|
  {
    if j.ended.Some? then (j, [])
    else if s == [] then (j, s)
    else
      CutBounds(cfg, s, final);
      match Cut(cfg, s, final)
      case Wait => (j, s)
      case Refuse(category) => (FailPlain(j, category), [])
      case Unit(n) => Drain(cfg, Release(cfg, j, s[..n]), s[n..], final)
  }

  function Close(j: Journal): Journal {
    if j.ended.Some? then j else j.(ended := Some(Success))
  }

  /** Completion of a stream that has released what it could. */
  function Finish(cfg: Config, j: Journal, s: bytes): Journal
    requires cfg.Compiled()
  {
    if j.ended.Some? then j
    else if cfg.profile == WholeResponse then
      if |s| > cfg.maxUnit then FailPlain(j, Limit) else Close(Release(cfg, j, s))
    else Close(Drain(cfg, j, s, true).0)
  }

  /** What a stream that received exactly these bytes and was completed must have delivered. */
  function Outcome(cfg: Config, input: bytes): Journal
    requires cfg.Compiled()
  {
    var (j, rest) := Drain(cfg, EMPTY, input, false);
    Finish(cfg, j, rest)
  }

  // ----- the separate fallback delivery

  const FALLBACK_START := Journal([], 0, PASS_DECISION, None)

  /** fallbackFailure: unlike Fail, a transport failure keeps the decision that was delivered. */
  function FallbackFail(f: Journal, category: Category, failure: Option<Decision>): Journal {
    var d := if failure.Some? then failure.value else f.decision;
    var faulted := category == Timeout || (d.disposition == NONE && category != Transport);
    f.(decision := if faulted then d.(disposition := FAULT) else d, ended := Some(category))
  }

  /** What delivering the candidate leads to when the source stream has already released some bytes. */
  function FallbackDelivery(cfg: Config, released: nat, candidate: bytes): Journal {
    if |candidate| > cfg.maxUnit || |candidate| > cfg.maxInput then FallbackFail(FALLBACK_START, Limit, None)
    else if !ValidRepresentation(cfg, candidate) then
      FallbackFail(FALLBACK_START, if cfg.UnitLines() && ValidString(candidate) then Unsupported else Malformed, None)
    else
      match cfg.fallbackGuard(candidate)
      case ScopeFailed(failure) => FallbackFail(FALLBACK_START, ValidatorFault, failure)
      case Guarded(d, err, cancelled) =>
        var f := FALLBACK_START.(decision := d.decision);
        if cancelled then FallbackFail(f, Timeout, Carried(err))
        else if err != NoError then
          FallbackFail(f, if d.decision.IsSystemFault() then ValidatorFault else Blocked, Carried(err))
        else if !d.deliverable then FallbackFail(f, Blocked, None)
        else if !ValidRepresentation(cfg, d.value) then FallbackFail(f, ValidatorFault, None)
        else if cfg.profile != WholeResponse && |d.value| > cfg.maxUnit then FallbackFail(f, Limit, None)
        else if released + |d.value| > cfg.maxOutput then FallbackFail(f, Limit, None)
        else SendFallback(cfg, f, d.value)
  }

  function SendFallback(cfg: Config, f: Journal, value: bytes): Journal {
    var w := cfg.fallbackTransport(value);
    if w.count < 0 || w.count > |value| then FallbackFail(f, Transport, None)
    else
      var sent := f.(sequence := 1, sink := value[..w.count]);
      if w.failed || w.count != |value| then FallbackFail(sent, Transport, None) else sent.(ended := Some(Success))
  }
}
