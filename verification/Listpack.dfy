/** Small collections in one buffer: every element behind its length, nothing in between. */
module Listpack {
  import opened Base

  // ---------------------------------------------------------------------------
  // Lengths, seven bits to a byte, least significant first.

  function Uvarint(n: nat): (b: Bytes)
    ensures |b| >= 1
  {
    if n < 128 then [n] else [128 + n % 128] + Uvarint(n / 128)
  }

  /** One more than the largest number that fits when `read` bytes have been used of at most ten. */
  function Room(read: nat): nat
    requires read <= 9
    decreases 9 - read
  {
    if read == 9 then 2 else 128 * Room(read + 1)
  }

  datatype Number = Number(value: nat, size: nat)

  /** Fails at the end of the buffer and where the number would not fit 64 bits. */
  function ReadUvarint(s: Bytes, read: nat): (r: Option<Number>)
    ensures r.Some? ==> 1 <= r.value.size <= |s|
    decreases s
  {
    if s == [] || read >= 10 then None
    else if s[0] < 128 then
      if read == 9 && s[0] > 1 then None else Some(Number(s[0], 1))
    else match ReadUvarint(s[1..], read + 1)
      case None => None
      case Some(more) => Some(Number((s[0] - 128) + 128 * more.value, more.size + 1))
  }

  lemma {:induction false} UvarintReads(n: nat, rest: Bytes, read: nat)
    requires read <= 9 && n < Room(read)
    ensures ReadUvarint(Uvarint(n) + rest, read) == Some(Number(n, |Uvarint(n)|))
    decreases n
  {
    var s := Uvarint(n) + rest;
    if n >= 128 {
      assert s[1..] == Uvarint(n / 128) + rest;
      assert read < 9;
      DivRoom(n, Room(read + 1));
      UvarintReads(n / 128, rest, read + 1);
    }
  }

  lemma DivRoom(n: nat, room: nat)
    requires n < 128 * room
    ensures n / 128 < room
  {
  }

  const MAX_LEN: nat := 0x7FFF_FFFF_FFFF_FFFF

  lemma LengthFits(n: nat)
    requires n <= MAX_LEN
    ensures n < Room(0)
  {
    assert Room(8) == 256 && Room(7) == 32768;
    assert Room(5) == 0x2000_0000 && Room(4) == 128 * Room(5) && Room(3) == 128 * Room(4);
    assert Room(2) == 128 * Room(3) && Room(1) == 128 * Room(2) && Room(0) == 128 * Room(1);
  }

  method UvarintLen(v: nat) returns (n: nat)
    ensures n == |Uvarint(v)|
  {
    n := 1;
    var w := v;
    while w >= 0x80
      invariant n - 1 + |Uvarint(w)| == |Uvarint(v)|
    {
      w, n := w / 128, n + 1;
    }
  }

  // ---------------------------------------------------------------------------
  // The buffer as a sequence of elements.

  function Packed(e: Bytes): Bytes {
    Uvarint(|e|) + e
  }

  function Pack(es: seq<Bytes>): Bytes {
    if es == [] then [] else Packed(es[0]) + Pack(es[1..])
  }

  lemma {:induction false} PackConcat(a: seq<Bytes>, b: seq<Bytes>)
    ensures Pack(a + b) == Pack(a) + Pack(b)
    decreases |a|
  {
    hide Packed;
    if a == [] {
      assert a + b == b;
    } else {
      assert (a + b)[1..] == a[1..] + b;
      PackConcat(a[1..], b);
      assert Packed(a[0]) + (Pack(a[1..]) + Pack(b)) == Packed(a[0]) + Pack(a[1..]) + Pack(b);
    }
  }

  lemma PackOne(e: Bytes)
    ensures Pack([e]) == Packed(e)
  {
    hide Packed;
    assert [e][1..] == [] && Packed(e) + [] == Packed(e);
  }

  /** Where element `i` starts. */
  ghost function At(es: seq<Bytes>, i: nat): nat
    requires i <= |es|
  {
    |Pack(es[..i])|
  }

  lemma PackSplit(es: seq<Bytes>, i: nat)
    requires i <= |es|
    ensures At(es, i) <= |Pack(es)| && Pack(es)[..At(es, i)] == Pack(es[..i]) && Pack(es)[At(es, i)..] == Pack(es[i..])
  {
    PackConcat(es[..i], es[i..]);
    assert es[..i] + es[i..] == es;
  }

  lemma PackElement(es: seq<Bytes>, i: nat)
    requires i < |es|
    ensures At(es, i + 1) == At(es, i) + |Packed(es[i])| <= |Pack(es)|
    ensures Pack(es)[At(es, i)..] == Packed(es[i]) + Pack(es[i + 1..])
    ensures Pack(es)[At(es, i) + |Uvarint(|es[i]|)|..At(es, i + 1)] == es[i]
  {
    hide Packed;
    PackSplit(es, i);
    PackSplit(es, i + 1);
    PackConcat(es[..i], [es[i]]);
    PackOne(es[i]);
    assert es[..i] + [es[i]] == es[..i + 1] && es[i..][1..] == es[i + 1..];
    PackedParts(es[i], Pack(es), At(es, i), Pack(es[i + 1..]));
  }

  lemma PackedParts(e: Bytes, s: Bytes, at: nat, rest: Bytes)
    requires at <= |s| && s[at..] == Packed(e) + rest
    ensures at + |Packed(e)| <= |s| && |Packed(e)| == |Uvarint(|e|)| + |e|
    ensures s[at + |Uvarint(|e|)|..at + |Packed(e)|] == e
  {
    var k := |Uvarint(|e|)|;
    assert s[at + k..at + k + |e|] == s[at..][k..k + |e|];
  }

  /** Putting other elements in place of those from `i` to `j`. */
  lemma PackReplaced(es: seq<Bytes>, i: nat, j: nat, new_: seq<Bytes>)
    requires i <= j <= |es|
    ensures At(es, i) <= |Pack(es)| && At(es, j) <= |Pack(es)|
    ensures Pack(es)[..At(es, i)] + Pack(new_) + Pack(es)[At(es, j)..] == Pack(es[..i] + new_ + es[j..])
  {
    PackSplit(es, i);
    PackSplit(es, j);
    PackConcat(es[..i] + new_, es[j..]);
    PackConcat(es[..i], new_);
  }

  class Listpack {
    var buf: Bytes
    var n: int
    ghost var elems: seq<Bytes>

    ghost predicate Valid()
      reads this
    {
      buf == Pack(elems) && n == |elems| && forall e :: e in elems ==> |e| <= MAX_LEN
    }

    constructor ()
      ensures Valid() && elems == []
    {
      buf, n, elems := [], 0, [];
    }

    method Append(val: Bytes)
      requires Valid() && |val| <= MAX_LEN
      modifies this
      ensures Valid() && elems == old(elems) + [val]
    {
      PackConcat(elems, [val]);
      PackOne(val);
      buf := buf + Uvarint(|val|);
      buf := buf + val;
      n := n + 1;
      elems := elems + [val];
      assert buf == old(buf) + Packed(val);
    }

    /** Where each element's bytes start, and how many there are. */
    method Offsets() returns (starts: seq<nat>, lens: seq<nat>)
      requires Valid()
      ensures |starts| == |lens| == |elems|
      ensures forall i :: 0 <= i < |elems| ==> starts[i] == At(elems, i) + |Uvarint(|elems[i]|)| && lens[i] == |elems[i]|
    {
      hide Uvarint, ReadUvarint, Packed, Pack;
      starts, lens := [], [];
      var i := 0;
      PackNothing(elems);
      while i < |buf|
        invariant |starts| == |lens| <= |elems| && i == At(elems, |starts|)
        invariant forall k :: 0 <= k < |starts| ==> starts[k] == At(elems, k) + |Uvarint(|elems[k]|)| && lens[k] == |elems[k]|
      {
        ghost var k := |starts|;
        PackBounds(elems, k);
        ElementReads(elems, k);
        var l := ReadUvarint(buf[i..], 0);
        if l.None? { break; }
        starts := starts + [i + l.value.size];
        lens := lens + [l.value.value];
        i := i + l.value.size + l.value.value;
      }
      PackBounds(elems, |starts|);
    }

    method Get(i: int) returns (e: Option<Bytes>)
      requires Valid()
      ensures e == if 0 <= i < |elems| then Some(elems[i]) else None
    {
      hide Uvarint, Pack;
      if i < 0 || i >= n { return None; }
      var starts, lens := Offsets();
      if i >= |starts| { return None; }
      PackElement(elems, i);
      return Some(buf[starts[i]..starts[i] + lens[i]]);
    }

    /** One step of a walk over the elements: the bytes of element `k` and where the next one starts. */
    method Step(i: nat, ghost k: nat) returns (val: Bytes, next: nat)
      requires Valid() && k <= |elems| && i == At(elems, k) < |buf|
      ensures k < |elems| && val == elems[k] && next == At(elems, k + 1)
    {
      hide Uvarint, ReadUvarint, Packed, Pack;
      PackBounds(elems, k);
      ElementReads(elems, k);
      PackElement(elems, k);
      var l := ReadUvarint(buf[i..], 0);
      var start := i + l.value.size;
      next := start + l.value.value;
      val := buf[start..next];
    }

    method All() returns (out: seq<Bytes>)
      requires Valid()
      ensures out == elems
    {
      hide Pack;
      out := [];
      var i := 0;
      PackNothing(elems);
      while i < |buf|
        invariant |out| <= |elems| && out == elems[..|out|] && i == At(elems, |out|) <= |buf|
        decreases |buf| - i, |elems| - |out|
      {
        var val, next := Step(i, |out|);
        ghost var k := |out|;
        PackBounds(elems, k + 1);
        PackElement(elems, k);
        out := out + [val];
        i := next;
      }
      PackBounds(elems, |out|);
    }

    /** Whether the search looks at position `i`. */
    static predicate Visits(i: int, start: int, stride: int)
      requires stride > 0
    {
      i >= start && (i - start) % stride == 0
    }

    /** The first visited position that holds `val`, or -1. */
    method Find(val: Bytes, start: int, stride: int) returns (found: int)
      requires Valid() && stride > 0
      ensures found == -1 || (0 <= found < |elems| && Visits(found, start, stride) && elems[found] == val)
      ensures forall k :: 0 <= k < (if found == -1 then |elems| else found) && Visits(k, start, stride) ==> elems[k] != val
    {
      hide Pack, Visits;
      found := -1;
      var i, idx := 0, 0;
      PackNothing(elems);
      while i < |buf|
        invariant 0 <= idx <= |elems| && i == At(elems, idx) <= |buf|
        invariant forall k :: 0 <= k < idx && Visits(k, start, stride) ==> elems[k] != val
        decreases |buf| - i, |elems| - idx
      {
        var cur, next := Step(i, idx);
        PackBounds(elems, idx + 1);
        PackElement(elems, idx);
        if Visits(idx, start, stride) && cur == val {
          return idx;
        }
        i, idx := next, idx + 1;
      }
      PackBounds(elems, idx);
    }

    method ReplaceAt(i: int, val: Bytes) returns (ok: bool)
      requires Valid() && |val| <= MAX_LEN
      modifies this
      ensures Valid() && (ok <==> 0 <= i < |old(elems)|)
      ensures elems == if ok then old(elems)[i := val] else old(elems)
    {
      hide Uvarint, Pack, Packed;
      if i < 0 || i >= n { return false; }
      var starts, lens := Offsets();
      if i >= |starts| { return false; }
      var k := UvarintLen(lens[i]);
      var hdrStart, tail := starts[i] - k, starts[i] + lens[i];
      PackElement(elems, i);
      PackReplaced(elems, i, i + 1, [val]);
      PackOne(val);
      PackedIs(val);
      PackedIs(elems[i]);
      Spliced(buf[..hdrStart], val, buf[tail..]);
      buf := buf[..hdrStart] + Uvarint(|val|) + val + buf[tail..];
      elems := elems[..i] + [val] + elems[i + 1..];
      assert elems == old(elems)[i := val];
      return true;
    }

    method DeleteRange(i: int, count: int) returns (ok: bool)
      requires Valid()
      modifies this
      ensures Valid() && (ok <==> 0 <= i && 0 < count && i + count <= |old(elems)|)
      ensures elems == if ok then old(elems)[..i] + old(elems)[i + count..] else old(elems)
    {
      hide Uvarint, Pack, Packed;
      if i < 0 || count <= 0 || i + count > n { return false; }
      var starts, lens := Offsets();
      if i + count > |starts| { return false; }
      var k := UvarintLen(lens[i]);
      var from, last := starts[i] - k, i + count - 1;
      var to := starts[last] + lens[last];
      PackElement(elems, last);
      PackedIs(elems[last]);
      PackReplaced(elems, i, i + count, []);
      EmptyPack();
      buf := buf[..from] + buf[to..];
      assert buf == old(buf)[..from] + [] + old(buf)[to..];
      n := n - count;
      elems := elems[..i] + elems[i + count..];
      assert elems == old(elems)[..i] + [] + old(elems)[i + count..];
      return true;
    }

    method InsertAt(i: int, val: Bytes) returns (ok: bool)
      requires Valid() && |val| <= MAX_LEN
      modifies this
      ensures Valid() && (ok <==> 0 <= i <= |old(elems)|)
      ensures elems == if ok then old(elems)[..i] + [val] + old(elems)[i..] else old(elems)
    {
      hide Uvarint, Pack, Packed;
      if i < 0 || i > n { return false; }
      if i == n {
        Append(val);
        assert old(elems)[..i] == old(elems) && old(elems)[i..] == [];
        return true;
      }
      var starts, lens := Offsets();
      var k := UvarintLen(lens[i]);
      var at := starts[i] - k;
      PackReplaced(elems, i, i, [val]);
      PackOne(val);
      PackedIs(val);
      Spliced(buf[..at], val, buf[at..]);
      buf := buf[..at] + Uvarint(|val|) + val + buf[at..];
      n := n + 1;
      elems := elems[..i] + [val] + elems[i..];
      return true;
    }
  }

  lemma Spliced(before: Bytes, val: Bytes, after: Bytes)
    ensures before + Uvarint(|val|) + val + after == before + Packed(val) + after
  {
    hide Uvarint;
    var h := Uvarint(|val|);
    assert (before + h) + val == before + (h + val);
  }

  lemma EmptyPack()
    ensures Pack([]) == []
  {
  }

  lemma PackedIs(e: Bytes)
    ensures Packed(e) == Uvarint(|e|) + e && |Packed(e)| == |Uvarint(|e|)| + |e|
  {
  }

  lemma PackNothing(es: seq<Bytes>)
    ensures At(es, 0) == 0
  {
    assert es[..0] == [];
  }

  /** The walk is at the end of the buffer exactly when it has passed every element. */
  lemma PackBounds(es: seq<Bytes>, k: nat)
    requires k <= |es|
    ensures At(es, k) == |Pack(es)| <==> k == |es|
    ensures At(es, k) <= |Pack(es)|
  {
    PackSplit(es, k);
    assert es[..|es|] == es;
    if k < |es| { PackElement(es, k); }
  }

  lemma ElementReads(es: seq<Bytes>, k: nat)
    requires k <= |es| && forall e :: e in es ==> |e| <= MAX_LEN
    ensures At(es, k) <= |Pack(es)|
    ensures k < |es| ==> At(es, k + 1) == At(es, k) + |Uvarint(|es[k]|)| + |es[k]|
    ensures k < |es| ==> ReadUvarint(Pack(es)[At(es, k)..], 0) == Some(Number(|es[k]|, |Uvarint(|es[k]|)|))
  {
    hide Uvarint, ReadUvarint, Pack;
    PackBounds(es, k);
    if k < |es| {
      PackElement(es, k);
      LengthFits(|es[k]|);
      UvarintReads(|es[k]|, es[k] + Pack(es[k + 1..]), 0);
      assert Packed(es[k]) + Pack(es[k + 1..]) == Uvarint(|es[k]|) + (es[k] + Pack(es[k + 1..]));
    }
  }
}
