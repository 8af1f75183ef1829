/** The replication stream: a ring of recent bytes and one queue per replica. */
module Replication {
  import opened Base

  const DEFAULT_CAPACITY: nat := 1024 * 1024
  const QUEUE_CAPACITY: nat := 1024

  // ---------------------------------------------------------------------------
  // The backlog ring.

  ghost function FirstKept(n: nat, size: nat): nat {
    if n > size then n - size else 0
  }

  /** The index a position has in a ring; the program's remainder of a negative number is brought up by the size. */
  function Wrap(k: int, size: nat): (r: nat)
    requires size > 0
    ensures r < size
  {
    k % size
  }

  /** The ring holds the last `size` bytes of `s`, byte `k` at index `k` modulo the size. */
  ghost predicate RingHolds(buf: Bytes, s: Bytes) {
    |buf| > 0 && forall k :: FirstKept(|s|, |buf|) <= k < |s| ==> buf[Wrap(k, |buf|)] == s[k]
  }

  function Mul(a: int, b: int): int { a * b }

  lemma MulSucc(q: int, size: int)
    ensures Mul(q + 1, size) == Mul(q, size) + size
  {
  }

  lemma MulSub(a: int, b: int, size: int)
    ensures Mul(a - b, size) == Mul(a, size) - Mul(b, size)
  {
  }

  lemma Divided(n: int, size: int)
    requires size > 0
    ensures n == Mul(n / size, size) + n % size && 0 <= n % size < size
  {
  }

  lemma {:induction false} MulPositive(d: int, size: int)
    requires d > 0 && size >= 0
    ensures Mul(d, size) >= size
    decreases d
  {
    hide Mul;
    MulSucc(d - 1, size);
    if d > 1 { MulPositive(d - 1, size); } else { MulZero(size); }
  }

  lemma MulZero(size: int)
    ensures Mul(0, size) == 0
  {
  }

  /** Quotient and remainder are determined. */
  lemma ModUnique(n: int, size: int, q: int, r: int)
    requires size > 0 && 0 <= r < size && n == Mul(q, size) + r
    ensures n % size == r
  {
    hide Mul;
    Divided(n, size);
    var p := n / size;
    MulSub(p, q, size);
    MulSub(q, p, size);
    if p > q { MulPositive(p - q, size); }
    if q > p { MulPositive(q - p, size); }
    assert p == q;
  }

  lemma ModNext(n: nat, size: nat)
    requires size > 0
    ensures Wrap(Wrap(n, size) + 1, size) == Wrap(n + 1, size)
  {
    hide Mul;
    var q, r := n / size, n % size;
    Divided(n, size);
    MulSucc(q, size);
    if r + 1 < size {
      ModUnique(n + 1, size, q, r + 1);
    } else {
      ModUnique(n + 1, size, q + 1, 0);
    }
  }

  lemma ModDistinct(k: nat, n: nat, size: nat)
    requires size > 0 && k < n < k + size
    ensures Wrap(k, size) != Wrap(n, size)
  {
    hide Mul;
    var q, r := k / size, k % size;
    Divided(k, size);
    MulSucc(q, size);
    if r + (n - k) < size {
      ModUnique(n, size, q, r + (n - k));
    } else {
      ModUnique(n, size, q + 1, r + (n - k) - size);
    }
  }

  lemma RingStep(buf: Bytes, s: Bytes, b: byte)
    requires RingHolds(buf, s)
    ensures RingHolds(buf[Wrap(|s|, |buf|) := b], s + [b])
  {
    hide Wrap;
    var buf', s' := buf[Wrap(|s|, |buf|) := b], s + [b];
    forall k | FirstKept(|s'|, |buf|) <= k < |s'|
      ensures buf'[Wrap(k, |buf|)] == s'[k]
    {
      if k < |s| {
        ModDistinct(k, |s|, |buf|);
        assert buf[Wrap(k, |buf|)] == s[k];
      }
    }
  }

  lemma RingAt(buf: Bytes, s: Bytes, k: nat)
    requires RingHolds(buf, s) && FirstKept(|s|, |buf|) <= k < |s|
    ensures buf[Wrap(k, |buf|)] == s[k]
  {
  }

  class Backlog {
    const buf: array<byte>
    const size: nat
    var firstOffset: int
    var lastOffset: int
    var head: int
    ghost var stream: Bytes   // every byte ever fed

    ghost predicate Valid()
      reads this, buf
    {
      && buf.Length == size > 0 && RingHolds(buf[..], stream)
      && lastOffset == |stream| && firstOffset == FirstKept(|stream|, size) && head == Wrap(|stream|, size)
    }

    constructor (capacity: int)
      ensures Valid() && stream == [] && fresh(buf) && size == if capacity > 0 then capacity else DEFAULT_CAPACITY
    {
      var n: nat := if capacity > 0 then capacity else DEFAULT_CAPACITY;
      buf := new byte[n](_ => 0);
      size := n;
      firstOffset, lastOffset, head, stream := 0, 0, 0, [];
    }

    method Feed(data: Bytes)
      requires Valid()
      modifies this, buf
      ensures Valid() && stream == old(stream) + data
    {
      hide RingHolds, Wrap;
      var i := 0;
      assert old(stream) + data[..0] == stream;
      while i < |data|
        invariant 0 <= i <= |data| && buf.Length == size > 0
        invariant stream == old(stream) && firstOffset == old(firstOffset) && lastOffset == old(lastOffset)
        invariant RingHolds(buf[..], stream + data[..i]) && head == Wrap(|stream| + i, size)
      {
        RingStep(buf[..], stream + data[..i], data[i]);
        assert stream + data[..i + 1] == stream + data[..i] + [data[i]];
        ModNext(|stream| + i, size);
        ghost var before := buf[..];
        buf[head] := data[i];
        assert buf[..] == before[head := data[i]];
        head := Wrap(head + 1, size);
        i := i + 1;
      }
      assert data[..i] == data;
      lastOffset := lastOffset + |data|;
      if lastOffset - firstOffset > size { firstOffset := lastOffset - size; }
      stream := stream + data;
    }

    method CanPartialSync(offset: int) returns (ok: bool)
      requires Valid()
      ensures ok <==> |stream| > 0 && FirstKept(|stream|, size) <= offset <= |stream|
    {
      ok := lastOffset > 0 && offset >= firstOffset && offset <= lastOffset;
    }

    /** For every admissible offset, exactly the stream from there to its end. */
    method ReadFromOffset(offset: int) returns (r: Option<Bytes>)
      requires Valid()
      ensures r == if FirstKept(|stream|, size) <= offset <= |stream| then Some(stream[offset..]) else None
    {
      hide RingHolds, Wrap;
      if offset < firstOffset || offset > lastOffset { return None; }
      var n := lastOffset - offset;
      var startIdx := Wrap(head - n, size);
      StartIndex(|stream|, size, n);
      var result: Bytes := [];
      while |result| < n
        invariant |result| <= n && result == stream[offset..offset + |result|]
      {
        var i := |result|;
        NextIndex(offset, size, i);
        RingAt(buf[..], stream, offset + i);
        result := result + [buf[Wrap(startIdx + i, size)]];
      }
      assert stream[offset..offset + n] == stream[offset..];
      return Some(result);
    }
  }

  lemma StartIndex(total: nat, size: nat, n: nat)
    requires size > 0 && n <= total
    ensures Wrap(Wrap(total, size) - n, size) == Wrap(total - n, size)
  {
    hide Mul;
    var q, m := total / size, total - n;
    Divided(total, size);
    Divided(m, size);
    MulSub(m / size, q, size);
    ModUnique(total % size - n, size, m / size - q, m % size);
  }

  lemma NextIndex(offset: nat, size: nat, i: nat)
    requires size > 0
    ensures Wrap(Wrap(offset, size) + i, size) == Wrap(offset + i, size)
  {
    hide Mul;
    var q, m := offset / size, offset + i;
    Divided(offset, size);
    Divided(m, size);
    MulSub(m / size, q, size);
    ModUnique(offset % size + i, size, m / size - q, m % size);
  }
}
