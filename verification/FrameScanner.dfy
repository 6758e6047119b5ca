/** Incremental unit framing with counters only (stream_splitter.go). */
module Framing {
  import opened Utf8
  import opened StreamBuffers

  const NEWLINE: byte := 10
  const QUOTE: byte := 34
  const BACKSLASH: byte := 92
  const LEFT_BRACE: byte := 123
  const RIGHT_BRACE: byte := 125
  const LEFT_BRACKET: byte := 91
  const RIGHT_BRACKET: byte := 93

  predicate IsSpace(b: byte) { b == 32 || b == 9 || b == 10 || b == 13 }

  /** What the scanner remembers of the bytes before its offset. */
  datatype Frame = Frame(objects: nat, arrays: nat, started: bool, inString: bool, escape: bool,
                         complete: bool, invalid: bool)

  const FRESH := Frame(0, 0, false, false, false, false, false)

  datatype FrameError = Fine | UnitLimit | InvalidUnit

  /** Scanning either goes on, has found a boundary, or has failed. */
  datatype Progress = Going(offset: nat, frame: Frame) | Boundary(n: nat) | Failed(error: FrameError)

  const START := Going(0, FRESH)

  /** One byte of a started unit (scanJSONByte). */
  function ScanByte(f: Frame, c: byte): Frame {
    if f.invalid then f
    else if f.inString then
      if f.escape then f.(escape := false)
      else if c == BACKSLASH then f.(escape := true)
      else if c == QUOTE then f.(inString := false)
      else f
    else if c == RIGHT_BRACE && f.objects == 0 then f.(invalid := true)
    else if c == RIGHT_BRACKET && f.arrays == 0 then f.(invalid := true)
    else
      var g :=
        if c == QUOTE then f.(inString := true)
        else if c == LEFT_BRACE then f.(objects := f.objects + 1)
        else if c == LEFT_BRACKET then f.(arrays := f.arrays + 1)
        else if c == RIGHT_BRACE then f.(objects := f.objects - 1)
        else if c == RIGHT_BRACKET then f.(arrays := f.arrays - 1)
        else f;
      g.(complete := g.objects == 0 && g.arrays == 0)
  }

  /** One byte of the loop in json. */
  function Step(p: Progress, c: byte, max: nat): Progress {
    match p
    case Boundary(_) => p
    case Failed(_) => p
    case Going(k, f) =>
      if f.complete && !IsSpace(c) then Boundary(k)
      else if k + 1 > max then Failed(UnitLimit)
      else if f.complete then Going(k + 1, f)
      else if !f.started && IsSpace(c) then (if k + 1 >= max then Failed(UnitLimit) else Going(k + 1, f))
      else if !f.started && c != LEFT_BRACE && c != LEFT_BRACKET then Failed(InvalidUnit)
      else
        var g := ScanByte(f.(started := true), c);
        if g.invalid then Failed(InvalidUnit)
        else if !g.complete && k + 1 >= max then Failed(UnitLimit)
        else Going(k + 1, g)
  }

  function Scan(p: Progress, s: bytes, max: nat): Progress
    decreases |s|
  {
    if s == [] then p else Scan(Step(p, s[0], max), s[1..], max)
  }

  /** The first newline's unit: 0 when there is none (newlineUnitBoundary without a final flush). */
  function NewlineBoundary(s: bytes): (n: nat)
    ensures n <= |s|
  {
    if s == [] then 0
    else if s[0] == NEWLINE then 1
    else
      var n := NewlineBoundary(s[1..]);
      if n == 0 then 0 else n + 1
  }

  // ----- scanning is a fold

  lemma {:induction false} ScanAppend(p: Progress, a: bytes, b: bytes, max: nat)
    ensures Scan(p, a + b, max) == Scan(Scan(p, a, max), b, max)
    decreases |a|
  {
    if a == [] {
      assert a + b == b;
    } else {
      assert (a + b)[1..] == a[1..] + b;
      ScanAppend(Step(p, a[0], max), a[1..], b, max);
    }
  }

  lemma ScanSnoc(p: Progress, s: bytes, i: nat, max: nat)
    requires i < |s|
    ensures Scan(p, s[..i + 1], max) == Step(Scan(p, s[..i], max), s[i], max)
  {
    assert s[..i + 1] == s[..i] + [s[i]];
    ScanAppend(p, s[..i], [s[i]], max);
    assert [s[i]][1..] == [];
  }

  lemma {:induction false} ScanEnded(p: Progress, s: bytes, max: nat)
    requires !p.Going?
    ensures Scan(p, s, max) == p
    decreases |s|
  {
    if s != [] {
      ScanEnded(p, s[1..], max);
    }
  }

  /** A boundary or a failure is final: later bytes cannot change it. */
  lemma ScanStable(s: bytes, more: bytes, max: nat)
    requires !Scan(START, s, max).Going?
    ensures Scan(START, s + more, max) == Scan(START, s, max)
  {
    ScanAppend(START, s, more, max);
    ScanEnded(Scan(START, s, max), more, max);
  }

  /** What the counters can look like while scanning goes on. */
  ghost predicate Sane(p: Progress, max: nat) {
    match p
    case Failed(e) => e != Fine
    case Boundary(n) => 0 < n <= max
    case Going(k, f) =>
      && !f.invalid
      && (f.complete ==> f.started && k <= max)
      && (!f.complete ==> k < max)
      && (f.started ==> k > 0)
      && (!f.started ==> f == FRESH)
  }

  lemma {:induction false} ScanSane(p: Progress, s: bytes, max: nat)
    requires Sane(p, max)
    ensures Sane(Scan(p, s, max), max)
    ensures Scan(p, s, max).Going? && p.Going? ==> Scan(p, s, max).offset == p.offset + |s|
    ensures Scan(p, s, max).Boundary? && p.Going? ==> Scan(p, s, max).n < p.offset + |s|
    ensures Scan(p, s, max).Going? ==> p.Going?
    decreases |s|
  {
    if s != [] {
      ScanSane(Step(p, s[0], max), s[1..], max);
      if !Step(p, s[0], max).Going? {
        ScanEnded(Step(p, s[0], max), s[1..], max);
      }
    }
  }

  /** One turn of the scanning loop at byte i, as seen from the whole of s. */
  lemma ScanTurn(s: bytes, i: nat, max: nat)
    requires i < |s| && Sane(Scan(START, s[..i], max), max)
    ensures var q := Step(Scan(START, s[..i], max), s[i], max);
            Scan(START, s[..i + 1], max) == q && Sane(q, max) && (!q.Going? ==> Scan(START, s, max) == q)
    ensures var p, q := Scan(START, s[..i], max), Step(Scan(START, s[..i], max), s[i], max);
            p.Going? && q.Going? ==> q.offset == p.offset + 1
    ensures var p, q := Scan(START, s[..i], max), Step(Scan(START, s[..i], max), s[i], max);
            p.Going? && q.Boundary? ==> q.n == p.offset
  {
    ScanSnoc(START, s, i, max);
    var q := Step(Scan(START, s[..i], max), s[i], max);
    if !q.Going? {
      assert s == s[..i + 1] + s[i + 1..];
      ScanStable(s[..i + 1], s[i + 1..], max);
    }
  }

  // ----- the newline boundary, said directly

  /** The returned unit holds exactly one newline, its last byte; zero means there is no newline at all. */
  lemma {:induction false} NewlineBoundaryIs(s: bytes)
    ensures NewlineBoundary(s) == 0 <==> NEWLINE !in s
    ensures var n := NewlineBoundary(s); n > 0 ==> s[n - 1] == NEWLINE && NEWLINE !in s[..n - 1]
  {
    if s != [] && s[0] != NEWLINE {
      NewlineBoundaryIs(s[1..]);
      var n := NewlineBoundary(s[1..]);
      assert s == [s[0]] + s[1..];
      if n > 0 {
        assert s[..n] == [s[0]] + s[1..][..n - 1];
      }
    }
  }

  lemma NewlineBoundaryUnique(s: bytes, n: nat)
    requires 0 < n <= |s| && s[n - 1] == NEWLINE && NEWLINE !in s[..n - 1]
    ensures NewlineBoundary(s) == n
  {
    NewlineBoundaryIs(s);
    var m := NewlineBoundary(s);
    assert s[n - 1] in s;
    assert forall i :: 0 <= i < n - 1 ==> s[i] in s[..n - 1];
    assert forall i :: 0 <= i < m - 1 ==> s[i] in s[..m - 1];
  }

  lemma NewlineTurn(s: bytes, n: nat)
    requires 0 < n <= |s| && NEWLINE !in s[..n - 1]
    ensures if s[n - 1] == NEWLINE then NewlineBoundary(s) == n else NEWLINE !in s[..n]
  {
    if s[n - 1] == NEWLINE {
      NewlineBoundaryUnique(s, n);
    }
    assert s[..n] == s[..n - 1] + [s[n - 1]];
  }

  class FrameScanner {
    var offset: nat
    var objects: nat
    var arrays: nat
    var started: bool
    var inString: bool
    var escape: bool
    var complete: bool
    var invalid: bool
    var visited: nat

    ghost function Counters(): Frame
      reads this
    {
      Frame(objects, arrays, started, inString, escape, complete, invalid)
    }

    ghost function State(): Progress
      reads this
    {
      Going(offset, Counters())
    }

    constructor ()
      ensures State() == START && visited == 0
    {
      offset, objects, arrays, visited := 0, 0, 0, 0;
      started, inString, escape, complete, invalid := false, false, false, false, false;
    }

    method Reset()
      modifies this
      ensures State() == START && visited == old(visited)
    {
      offset, objects, arrays := 0, 0, 0;
      started, inString, escape, complete, invalid := false, false, false, false, false;
    }

    /** Looks for the next newline; every byte is visited once over all calls on one unit. */
    method Newline(b: StreamBuffer, final: bool) returns (n: nat)
      requires b.Valid() && offset <= b.size
      requires NEWLINE !in b.Contents()[..offset]
      modifies this
      ensures n == if NewlineBoundary(b.Contents()) > 0 || !final then NewlineBoundary(b.Contents()) else b.size
      ensures n == 0 ==> offset == b.size && NEWLINE !in b.Contents()
      ensures n > 0 ==> offset == n
      ensures offset <= b.size && visited == old(visited) + offset - old(offset)
    {
      ghost var s := b.Contents();
      while offset < b.size
        invariant b.Valid() && b.Contents() == s
        invariant old(offset) <= offset <= b.size && NEWLINE !in s[..offset]
        invariant visited == old(visited) + offset - old(offset)
      {
        var c := b.At(offset);
        visited := visited + 1;
        offset := offset + 1;
        NewlineTurn(s, offset);
        if c == NEWLINE {
          return offset;
        }
      }
      NewlineBoundaryIs(s);
      assert s[..offset] == s;
      if final {
        return b.size;
      }
      return 0;
    }

    /** scanJSONByte. */
    method ScanJsonByte(c: byte)
      modifies this
      ensures Counters() == ScanByte(old(Counters()), c) && offset == old(offset) && visited == old(visited)
    {
      if invalid {
        return;
      }
      if inString {
        if escape {
          escape := false;
          return;
        }
        if c == BACKSLASH {
          escape := true;
        } else if c == QUOTE {
          inString := false;
        }
        return;
      }
      if c == QUOTE {
        inString := true;
      } else if c == LEFT_BRACE {
        objects := objects + 1;
      } else if c == LEFT_BRACKET {
        arrays := arrays + 1;
      } else if c == RIGHT_BRACE {
        if objects == 0 {
          invalid := true;
          return;
        }
        objects := objects - 1;
      } else if c == RIGHT_BRACKET {
        if arrays == 0 {
          invalid := true;
          return;
        }
        arrays := arrays - 1;
      }
      complete := objects == 0 && arrays == 0;
    }

    /** startJSON: leading whitespace is skipped; the first other byte must open a container. */
    method StartJson(c: byte, max: nat) returns (skip: bool, err: FrameError)
      modifies `started
      ensures started == (old(started) || (!IsSpace(c) && err == Fine))
      ensures skip == (!old(started) && IsSpace(c) && offset < max)
      ensures err == if old(started) then Fine
                     else if IsSpace(c) then (if offset >= max then UnitLimit else Fine)
                     else if c != LEFT_BRACE && c != LEFT_BRACKET then InvalidUnit
                     else Fine
    {
      if !started {
        if IsSpace(c) {
          if offset >= max {
            return false, UnitLimit;
          }
          return true, Fine;
        }
        if c != LEFT_BRACE && c != LEFT_BRACKET {
          return false, InvalidUnit;
        }
        started := true;
      }
      return false, Fine;
    }

    /** One turn of the loop in json; done says that the turn returned. */
    method Turn(c: byte, max: nat) returns (done: bool, n: nat, err: FrameError)
      requires !invalid
      modifies this
      ensures visited == old(visited) + 1
      ensures done == !Step(old(State()), c, max).Going?
      ensures !done ==> State() == Step(old(State()), c, max)
      ensures done && err == Fine ==> Step(old(State()), c, max) == Boundary(n) && offset == old(offset)
      ensures done && err != Fine ==> Step(old(State()), c, max) == Failed(err) && offset == old(offset) + 1
    {
      visited := visited + 1;
      if complete && !IsSpace(c) {
        return true, offset, Fine;
      }
      offset := offset + 1;
      if offset > max {
        return true, 0, UnitLimit;
      }
      if complete {
        return false, 0, Fine;
      }
      var skip, startErr := StartJson(c, max);
      if startErr != Fine {
        return true, 0, startErr;
      }
      if skip {
        return false, 0, Fine;
      }
      ScanJsonByte(c);
      if invalid {
        return true, 0, InvalidUnit;
      }
      if !complete && offset >= max {
        return true, 0, UnitLimit;
      }
      return false, 0, Fine;
    }

    /** finishJSON: what is known when the pending bytes run out. */
    method FinishJson(size: nat, max: nat, final: bool) returns (n: nat, err: FrameError)
      ensures err != Fine <==> if complete then offset > max else size >= max
      ensures err == Fine || err == UnitLimit
      ensures n == if err == Fine && complete && final then offset else 0
    {
      if complete {
        if offset > max {
          return 0, UnitLimit;
        }
        if final {
          return offset, Fine;
        }
        return 0, Fine;
      }
      if size >= max {
        return 0, UnitLimit;
      }
      return 0, Fine;
    }

    /**
     * Resumes framing where the last call stopped. The result is that of scanning the pending bytes from
     * their start, and each visited byte was either passed or is the one byte of lookahead after a unit.
     */
    method Json(b: StreamBuffer, max: nat, final: bool) returns (n: nat, err: FrameError)
      requires b.Valid() && offset <= b.size && max > 0
      requires State() == Scan(START, b.Contents()[..offset], max)
      modifies this
      ensures match Scan(START, b.Contents(), max)
              case Boundary(k) => err == Fine && n == k
              case Failed(e) => err == e
              case Going(k, f) => err == Fine && n == (if f.complete && final then |b.Contents()| else 0)
                                  && State() == Going(k, f) && k == |b.Contents()|
      ensures offset <= b.size
      ensures visited <= old(visited) + offset - old(offset) + (if err == Fine && 0 < n < b.size then 1 else 0)
      ensures err == Fine && n > 0 ==> offset == n
    {
      hide Scan, Step, ScanByte, Unrolled;
      ghost var s := b.Contents();
      ScanSane(START, s[..offset], max);
      while offset < b.size
        invariant b.Valid() && b.Contents() == s
        invariant old(offset) <= offset <= b.size
        invariant State() == Scan(START, s[..offset], max) && Sane(State(), max)
        invariant visited == old(visited) + offset - old(offset)
      {
        ghost var i := offset;
        var c := b.At(offset);
        var done, k, e := Turn(c, max);
        ScanTurn(s, i, max);
        if done {
          ScanSane(START, s, max);
          return k, e;
        }
      }
      assert s[..offset] == s;
      ScanSane(START, s, max);
      n, err := FinishJson(b.size, max, final);
    }
  }
}
