/** A list behind two encodings: one listpack while short, a quicklist after. */
module ListView {
  import opened Base
  import opened Windows
  import LP = Listpack
  import Q = Quicklist

  const MAX_VALUE: nat := 64

  /** The byte budget a negative list-max-listpack-size stands for. */
  function Budget(limit: int): nat {
    match limit
    case -1 => 4 * 1024
    case -2 => 8 * 1024
    case -3 => 16 * 1024
    case -4 => 32 * 1024
    case -5 => 64 * 1024
    case _ => 8 * 1024
  }

  /** Five settings, each twice the one before from 4096 bytes on; any other counts as the second. */
  lemma BudgetDoubles(k: int)
    ensures Budget(-1) == 4096 && (1 <= k < 5 ==> Budget(-k - 1) == 2 * Budget(-k)) && (k > 5 ==> Budget(-k) == 8192)
  {
  }

  ghost predicate Exceeds(value: seq<Bytes>, added: nat, limit: int) {
    if limit >= 0 then |value| >= limit else |LP.Pack(value)| + added > Budget(limit)
  }

  /** Whether a listpack must not take the element. */
  ghost predicate TooBig(value: seq<Bytes>, val: Bytes, limit: int) {
    |val| > MAX_VALUE || Exceeds(value, |val|, limit)
  }

  class View {
    var lp: LP.Listpack?
    var ql: Q.Quicklist?
    ghost var value: seq<Bytes>

    ghost function Nodes(): seq<Q.Node>
      reads this, ql
    {
      if ql == null then [] else ql.nodes
    }

    ghost predicate Valid()
      reads this, lp, ql, Nodes()
    {
      && (lp == null <==> ql != null)
      && (lp != null ==> lp.Valid() && lp.elems == value)
      && (ql != null ==> ql.Valid() && ql.Contents() == value)
    }

    constructor ()
      ensures Valid() && fresh(lp) && ql == null && value == []
    {
      lp := new LP.Listpack();
      ql := null;
      value := [];
    }

    method Len() returns (n: int)
      requires Valid()
      ensures n == |value|
    {
      n := if ql != null then ql.count else lp.n;
    }

    method LRange(start: int, stop: int) returns (result: seq<Bytes>)
      requires Valid()
      ensures result == Window(value, start, stop)
    {
      hide LP.Listpack.Valid, Q.Quicklist.Valid;
      if ql != null {
        result := ql.LRange(start, stop);
        return;
      }
      var all := lp.All();
      var n := |all|;
      if n == 0 { return []; }
      var first := if start < 0 then start + n else start;
      var last := if stop < 0 then stop + n else stop;
      if first < 0 { first := 0; }
      if last >= n { last := n - 1; }
      if first > last || first >= n { return []; }
      return all[first..last + 1];
    }

    method LIndex(i: int) returns (r: Option<Bytes>)
      requires Valid()
      ensures var k := Normalize(i, |value|);
              r == if 0 <= k < |value| then Some(value[k]) else None
    {
      hide Q.Quicklist.Valid;
      if ql != null {
        r := ql.LIndex(i);
        return;
      }
      var k := Normalize(i, lp.n);
      if k < 0 || k >= lp.n { return None; }
      r := lp.Get(k);
    }

    /** Moves the elements to a quicklist. */
    method Promote()
      requires Valid() && lp != null
      modifies this
      ensures Valid() && ql != null && fresh(ql) && fresh(ql.nodes) && value == old(value)
    {
      hide LP.Listpack.Valid, Q.Quicklist.Valid;
      var items := lp.All();
      ql := QuicklistOf(items);
      lp := null;
    }

    /** Whether an element of `added` bytes more would pass the configured limit. */
    method WouldExceed(added: nat, limit: int) returns (yes: bool)
      requires Valid() && lp != null
      ensures yes <==> Exceeds(value, added, limit)
    {
      if limit >= 0 { return lp.n >= limit; }
      return |lp.buf| + added > Budget(limit);
    }

    method PromoteToGrow(val: Bytes, limit: int)
      requires Valid()
      modifies this
      ensures Valid() && value == old(value)
      ensures (lp == old(lp) && ql == old(ql)) || (lp == null && fresh(ql) && fresh(ql.nodes))
      ensures ql == null <==> old(ql) == null && !TooBig(old(value), val, limit)
    {
      hide LP.Listpack.Valid, Q.Quicklist.Valid, Exceeds;
      if ql == null {
        var grow := WouldExceed(|val|, limit);
        if |val| > MAX_VALUE || grow { Promote(); }
      }
    }

    method LSet(i: int, val: Bytes) returns (ok: bool)
      requires Valid() && |val| <= LP.MAX_LEN
      modifies this, lp, ql, Nodes()
      ensures Valid()
      ensures (lp == old(lp) || lp == null) && (ql == old(ql) || fresh(ql))
      ensures forall i :: 0 <= i < |Nodes()| ==> Nodes()[i] in old(Nodes()) || fresh(Nodes()[i])
      ensures var k := Normalize(i, |old(value)|);
              && (ok <==> 0 <= k < |old(value)|)
              && value == if ok then old(value)[k := val] else old(value)
    {
      hide LP.Pack, Q.Quicklist.Valid;
      if ql == null && |val| > MAX_VALUE { Promote(); }
      if ql != null {
        ok := ql.LSet(i, val);
        value := ql.Contents();
        return;
      }
      var k := Normalize(i, lp.n);
      if k < 0 || k >= lp.n { return false; }
      ok := lp.ReplaceAt(k, val);
      value := lp.elems;
    }

    method LPush(val: Bytes, limit: int)
      requires Valid() && |val| <= LP.MAX_LEN
      modifies this, lp, ql, Nodes()
      ensures Valid() && value == [val] + old(value)
      ensures (lp == old(lp) || lp == null) && (ql == old(ql) || fresh(ql))
      ensures forall i :: 0 <= i < |Nodes()| ==> Nodes()[i] in old(Nodes()) || fresh(Nodes()[i])
      ensures ql == null <==> old(ql) == null && !TooBig(old(value), val, limit)
    {
      hide LP.Listpack.Valid, Q.Quicklist.Valid, TooBig;
      PromoteToGrow(val, limit);
      if ql != null {
        ql.LPush(val);
      } else {
        var _ := lp.InsertAt(0, val);
        assert old(value)[..0] + [val] + old(value)[0..] == [val] + old(value);
      }
      value := [val] + value;
    }

    method RPush(val: Bytes, limit: int)
      requires Valid() && |val| <= LP.MAX_LEN
      modifies this, lp, ql, Nodes()
      ensures Valid() && value == old(value) + [val]
      ensures (lp == old(lp) || lp == null) && (ql == old(ql) || fresh(ql))
      ensures forall i :: 0 <= i < |Nodes()| ==> Nodes()[i] in old(Nodes()) || fresh(Nodes()[i])
      ensures ql == null <==> old(ql) == null && !TooBig(old(value), val, limit)
    {
      hide LP.Listpack.Valid, Q.Quicklist.Valid, TooBig;
      PromoteToGrow(val, limit);
      if ql != null {
        ql.RPush(val);
      } else {
        lp.Append(val);
      }
      value := value + [val];
    }

    method LPop() returns (r: Option<Bytes>)
      requires Valid()
      modifies this, lp, ql, Nodes()
      ensures Valid()
      ensures (lp == old(lp) || lp == null) && (ql == old(ql) || fresh(ql))
      ensures forall i :: 0 <= i < |Nodes()| ==> Nodes()[i] in old(Nodes()) || fresh(Nodes()[i])
      ensures r == if old(value) == [] then None else Some(old(value)[0])
      ensures value == if old(value) == [] then [] else old(value)[1..]
    {
      hide LP.Pack, Q.Quicklist.Valid;
      if ql != null {
        r := ql.LPop();
        value := ql.Contents();
        return;
      }
      if lp.n == 0 { return None; }
      r := lp.Get(0);
      var _ := lp.DeleteRange(0, 1);
      assert value[..0] + value[1..] == value[1..];
      value := lp.elems;
    }

    method RPop() returns (r: Option<Bytes>)
      requires Valid()
      modifies this, lp, ql, Nodes()
      ensures Valid()
      ensures (lp == old(lp) || lp == null) && (ql == old(ql) || fresh(ql))
      ensures forall i :: 0 <= i < |Nodes()| ==> Nodes()[i] in old(Nodes()) || fresh(Nodes()[i])
      ensures r == if old(value) == [] then None else Some(old(value)[|old(value)| - 1])
      ensures value == if old(value) == [] then [] else old(value)[..|old(value)| - 1]
    {
      hide LP.Pack, Q.Quicklist.Valid;
      if ql != null {
        r := ql.RPop();
        value := ql.Contents();
        return;
      }
      var n := lp.n;
      if n == 0 { return None; }
      r := lp.Get(n - 1);
      var _ := lp.DeleteRange(n - 1, 1);
      assert value[..n - 1] + value[n..] == value[..n - 1];
      value := lp.elems;
    }

    /** Rewrites the whole list in the encoding that fits; a quicklist stays one. */
    method ReplaceAll(items: seq<Bytes>, limit: int)
      requires Valid() && forall e :: e in items ==> |e| <= LP.MAX_LEN
      modifies this
      ensures Valid() && value == items && (lp == null || fresh(lp)) && (ql == null || fresh(ql)) && fresh(Nodes())
      ensures ql != null <==> old(ql) != null || (exists e :: e in items && |e| > MAX_VALUE) ||
                              if limit >= 0 then |items| > limit else Total(items) > Budget(limit)
    {
      hide LP.Listpack.Valid, Q.Quicklist.Valid;
      var oversized := Oversized(items);
      var total := TotalOf(items);
      var tooBig := if limit >= 0 then |items| > limit else total > Budget(limit);
      value := items;
      if ql != null || oversized || tooBig {
        ql := QuicklistOf(items);
        lp := null;
      } else {
        lp := ListpackOf(items);
        ql := null;
      }
    }
  }

  method QuicklistOf(items: seq<Bytes>) returns (ql: Q.Quicklist)
    ensures fresh(ql) && fresh(ql.nodes) && ql.Valid() && ql.Contents() == items
  {
    hide Q.Quicklist.Valid, Q.Quicklist.Contents;
    ql := new Q.Quicklist();
    var i := 0;
    while i < |items|
      invariant 0 <= i <= |items| && fresh(ql) && fresh(ql.nodes) && ql.Valid() && ql.Contents() == items[..i]
    {
      ql.RPush(items[i]);
      i := i + 1;
    }
    assert items[..i] == items;
  }

  method ListpackOf(items: seq<Bytes>) returns (lp: LP.Listpack)
    requires forall e :: e in items ==> |e| <= LP.MAX_LEN
    ensures fresh(lp) && lp.Valid() && lp.elems == items
  {
    hide LP.Listpack.Valid;
    lp := new LP.Listpack();
    var i := 0;
    while i < |items|
      invariant 0 <= i <= |items| && fresh(lp) && lp.Valid() && lp.elems == items[..i]
    {
      lp.Append(items[i]);
      i := i + 1;
    }
    assert items[..i] == items;
  }

  method Oversized(items: seq<Bytes>) returns (yes: bool)
    ensures yes <==> exists e :: e in items && |e| > MAX_VALUE
  {
    var i := 0;
    while i < |items|
      invariant 0 <= i <= |items| && forall k :: 0 <= k < i ==> |items[k]| <= MAX_VALUE
    {
      if |items[i]| > MAX_VALUE { return true; }
      i := i + 1;
    }
    return false;
  }

  function Total(items: seq<Bytes>): nat {
    if items == [] then 0 else Total(items[..|items| - 1]) + |items[|items| - 1]| + 2
  }

  method TotalOf(items: seq<Bytes>) returns (total: nat)
    ensures total == Total(items)
  {
    total := 0;
    var i := 0;
    while i < |items|
      invariant 0 <= i <= |items| && total == Total(items[..i])
    {
      assert items[..i + 1][..i] == items[..i];
      total := total + |items[i]| + 2;
      i := i + 1;
    }
    assert items[..i] == items;
  }

  // ---------------------------------------------------------------------------
  // Whole runs.

  datatype Op = PushLeft(val: Bytes) | PushRight(val: Bytes) | PopLeft | PopRight | Put(index: int, val: Bytes)

  function Apply(s: seq<Bytes>, op: Op): seq<Bytes> {
    match op
    case PushLeft(val) => [val] + s
    case PushRight(val) => s + [val]
    case PopLeft => if s == [] then [] else s[1..]
    case PopRight => if s == [] then [] else s[..|s| - 1]
    case Put(i, val) =>
      var k := Normalize(i, |s|);
      if 0 <= k < |s| then s[k := val] else s
  }

  function Replay(ops: seq<Op>): seq<Bytes> {
    if ops == [] then [] else Apply(Replay(ops[..|ops| - 1]), ops[|ops| - 1])
  }

  /** Whatever limit each step finds, the list is the replayed sequence. */
  method Run(ops: seq<Op>, limit: nat -> int) returns (v: View)
    requires forall i :: 0 <= i < |ops| && (ops[i].PushLeft? || ops[i].PushRight? || ops[i].Put?) ==> |ops[i].val| <= LP.MAX_LEN
    ensures v.Valid() && v.value == Replay(ops)
  {
    hide View.Valid;
    v := new View();
    var i := 0;
    while i < |ops|
      invariant 0 <= i <= |ops| && v.Valid() && v.value == Replay(ops[..i])
      invariant fresh(v) && (v.lp == null || fresh(v.lp)) && (v.ql == null || fresh(v.ql)) && fresh(v.Nodes())
    {
      assert ops[..i + 1][..i] == ops[..i];
      match ops[i] {
        case PushLeft(val) => v.LPush(val, limit(i));
        case PushRight(val) => v.RPush(val, limit(i));
        case PopLeft => var _ := v.LPop();
        case PopRight => var _ := v.RPop();
        case Put(k, val) => var _ := v.LSet(k, val);
      }
      i := i + 1;
    }
    assert ops[..i] == ops;
  }
}
