/** The bounded ring that holds the bytes a stream has received and not yet released (stream.go). */
module StreamBuffers {
  import opened Utf8

  /** The i-th logical byte's place in a ring of the given capacity. */
  function Slot(head: nat, i: nat, capacity: nat): nat
    requires head < capacity
  {
    (head + i) % capacity
  }

  lemma SlotIs(head: nat, i: nat, capacity: nat)
    requires head < capacity && i <= capacity
    ensures Slot(head, i, capacity) == if head + i < capacity then head + i else head + i - capacity
  {
    var x := head + i;
    var q := x / capacity;
    assert x == q * capacity + x % capacity;
    if q >= 2 {
      MulAtLeast(q, 2, capacity);
    } else if q == 1 {
      assert q * capacity == capacity;
    }
  }

  lemma MulAtLeast(q: nat, low: nat, c: nat)
    requires low <= q
    ensures low * c <= q * c
  {
    assert q * c == low * c + (q - low) * c;
  }

  /** The bytes of a ring, read from its head. */
  ghost function Unrolled(data: bytes, head: nat, size: nat): (s: bytes)
    requires size <= |data| && (head < |data| || head == 0 == |data|)
    ensures |s| == size
    ensures forall i :: 0 <= i < size ==> s[i] == data[if head + i < |data| then head + i else head + i - |data|]
  {
    if head + size <= |data| then data[head..head + size] else data[head..] + data[..head + size - |data|]
  }

  lemma UnrolledIs(data: bytes, size: nat, s: bytes)
    requires size == |s| <= |data| && data[..size] == s
    ensures Unrolled(data, 0, size) == s
  {
  }

  /** The ring after p was written behind the last byte, around the end if need be. */
  ghost predicate Written(before: bytes, after: bytes, tail: nat, p: bytes) {
    && |after| == |before| && tail < |before| && |p| <= |before|
    && (forall i :: 0 <= i < |p| ==> after[if tail + i < |before| then tail + i else tail + i - |before|] == p[i])
    && (forall k :: 0 <= k < |before| && !(tail <= k < tail + |p|) && !(k < tail + |p| - |before|) ==> after[k] == before[k])
  }

  lemma WrittenUnrolls(before: bytes, after: bytes, head: nat, size: nat, tail: nat, p: bytes)
    requires head < |before| && size + |p| <= |before|
    requires tail == if head + size < |before| then head + size else head + size - |before|
    requires Written(before, after, tail, p)
    ensures Unrolled(after, head, size + |p|) == Unrolled(before, head, size) + p
  {
    var now, was := Unrolled(after, head, size + |p|), Unrolled(before, head, size);
    forall i | 0 <= i < size
      ensures now[i] == was[i]
    {
      var k := if head + i < |before| then head + i else head + i - |before|;
      assert after[k] == before[k];
    }
    forall i | 0 <= i < |p|
      ensures now[size + i] == p[i]
    {
      var k := if tail + i < |before| then tail + i else tail + i - |before|;
      assert after[k] == p[i];
    }
  }

  /** The bytes p stand at `at`, everything else is as before. */
  ghost predicate Copied(before: bytes, after: bytes, at: nat, p: bytes) {
    && |after| == |before| && at + |p| <= |before|
    && forall k :: 0 <= k < |before| ==> after[k] == if at <= k < at + |p| then p[k - at] else before[k]
  }

  /** Two copies, the second from the start of the array, write p around its end. */
  lemma CopiesWrite(before: bytes, mid: bytes, after: bytes, tail: nat, first: nat, p: bytes)
    requires tail < |before| && |p| <= |before| && first == Min(|p|, |before| - tail)
    requires Copied(before, mid, tail, p[..first]) && Copied(mid, after, 0, p[first..])
    ensures Written(before, after, tail, p)
  {
    forall i | 0 <= i < |p|
      ensures after[if tail + i < |before| then tail + i else tail + i - |before|] == p[i]
    {
      if i < first {
        assert mid[tail + i] == p[..first][i];
      } else {
        assert after[i - first] == p[first..][i - first];
      }
    }
  }

  /** Go's copy into data[at:]. */
  method CopyTo(data: array<byte>, at: nat, p: bytes)
    requires at + |p| <= data.Length
    modifies data
    ensures Copied(old(data[..]), data[..], at, p)
  {
    forall i | 0 <= i < |p| { data[at + i] := p[i]; }
  }

  class StreamBuffer {
    var data: array<byte>
    var head: nat
    var size: nat
    var copied: nat

    // Where the copied bytes went: into the ring by Append, out of it by Prefix, or between rings by growth.
    ghost var appended: nat
    ghost var extracted: nat
    ghost var grown: nat

    ghost predicate Valid()
      reads this, data
    {
      && size <= data.Length
      && (head < data.Length || head == 0 == data.Length)
      && copied == appended + extracted + grown
    }

    ghost function Contents(): (s: bytes)
      requires Valid()
      reads this, data
      ensures |s| == size
    {
      Unrolled(data[..], head, size)
    }

    /** Growth has copied at most twice what was appended, and can be charged to a ring below its budget. */
    ghost predicate Amortised(budget: nat)
      reads this
      reads data
    {
      && data.Length <= budget
      && size <= appended
      && grown <= 2 * appended
      && (data.Length < budget ==> grown <= data.Length)
    }

    constructor ()
      ensures Valid() && fresh(data) && Contents() == []
      ensures data.Length == 0 && copied == 0 && appended == extracted == grown == 0
    {
      data := new byte[0];
      head, size, copied := 0, 0, 0;
      appended, extracted, grown := 0, 0, 0;
    }

    method At(i: nat) returns (b: byte)
      requires Valid() && i < size
      ensures b == Contents()[i]
    {
      SlotIs(head, i, data.Length);
      b := data[Slot(head, i, data.Length)];
    }

    /** Moves the bytes to a larger ring, starting at index zero. */
    method Grow(capacity: nat)
      requires Valid() && data.Length < capacity
      modifies this
      ensures Valid() && fresh(data) && data.Length == capacity && head == 0
      ensures Contents() == old(Contents()) && size == old(size)
      ensures appended == old(appended) && extracted == old(extracted) && grown == old(grown) + size
    {
      hide Slot, Unrolled;
      var larger := new byte[capacity];
      for i := 0 to size
        invariant Valid() && unchanged(this)
        invariant fresh(larger) && larger.Length == capacity && data != larger
        invariant forall j :: 0 <= j < i ==> larger[j] == Contents()[j]
      {
        var b := At(i);
        larger[i] := b;
      }
      ghost var before := Contents();
      copied := copied + size;
      grown := grown + size;
      data, head := larger, 0;
      UnrolledIs(data[..], size, before);
    }

    method Append(p: bytes, maxBytes: nat)
      requires Valid() && data.Length <= maxBytes && size + |p| <= maxBytes
      modifies this, data
      ensures Valid() && (data == old(data) || fresh(data))
      ensures Contents() == old(Contents()) + p
      ensures old(data.Length) <= data.Length <= maxBytes
      ensures appended == old(appended) + |p| && extracted == old(extracted)
      ensures old(Amortised(maxBytes)) ==> Amortised(maxBytes)
    {
      var required := size + |p|;
      if required > data.Length {
        var capacity := maxBytes;
        if data.Length <= maxBytes - data.Length {
          capacity := Min(maxBytes, Max(required, data.Length * 2));
        }
        Grow(capacity);
      }
      if |p| == 0 {
        assert Contents() == old(Contents()) + p;
        return;
      }
      Fill(p);
    }

    /** Copies p behind the last byte, in two pieces when it wraps. */
    method Fill(p: bytes)
      requires Valid() && 0 < |p| <= data.Length - size
      modifies this, data
      ensures Valid() && data == old(data)
      ensures Contents() == old(Contents()) + p
      ensures appended == old(appended) + |p| && extracted == old(extracted) && grown == old(grown)
      ensures size == old(size) + |p|
    {
      hide Slot, Unrolled, Copied, Written;
      SlotIs(head, size, data.Length);
      var tail := Slot(head, size, data.Length);
      var first := Min(|p|, data.Length - tail);
      ghost var before := data[..];
      CopyTo(data, tail, p[..first]);
      ghost var mid := data[..];
      CopyTo(data, 0, p[first..]);
      CopiesWrite(before, mid, data[..], tail, first, p);
      WrittenUnrolls(before, data[..], head, size, tail, p);
      size := size + |p|;
      copied := copied + |p|;
      appended := appended + |p|;
    }

    method Prefix(n: nat) returns (out: bytes)
      requires Valid() && n <= size
      modifies `copied, `extracted
      ensures Valid() && out == old(Contents())[..n] && Contents() == old(Contents())
      ensures extracted == old(extracted) + n
    {
      if n == 0 {
        return [];
      }
      var first := Min(n, data.Length - head);
      out := data[head..head + first] + data[..n - first];
      assert out == Contents()[..n];
      copied := copied + n;
      extracted := extracted + n;
    }

    method Consume(n: nat)
      requires Valid() && 0 < n <= size
      modifies `head, `size
      ensures Valid() && Contents() == old(Contents())[n..]
    {
      ghost var before := Contents();
      SlotIs(head, n, data.Length);
      size := size - n;
      head := Slot(head, n, data.Length);
      if size == 0 {
        head := 0;
      }
      assert Contents() == before[n..];
    }

    method Clear()
      modifies `data, `head, `size
      requires Valid()
      ensures Valid() && fresh(data) && Contents() == [] && data.Length == 0
    {
      data := new byte[0];
      head, size := 0, 0;
    }
  }
}
