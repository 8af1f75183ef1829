/** Long lists: a doubly linked chain of nodes, each holding up to 128 elements. */
module Quicklist {
  import opened Base
  import opened Windows

  const NODE_CAPACITY: nat := 128

  class Node {
    var prev: Node?
    var next: Node?
    var items: seq<Bytes>

    constructor (prev: Node?, next: Node?, items: seq<Bytes>)
      ensures this.prev == prev && this.next == next && this.items == items
    {
      this.prev, this.next, this.items := prev, next, items;
    }
  }

  ghost function At(nodes: seq<Node>, i: int): Node? {
    if 0 <= i < |nodes| then nodes[i] else null
  }

  ghost predicate Distinct(nodes: seq<Node>) {
    forall i, j :: 0 <= i < j < |nodes| ==> nodes[i] != nodes[j]
  }

  ghost predicate Nexts(nodes: seq<Node>)
    reads nodes`next
  {
    forall i {:trigger nodes[i].next} :: 0 <= i < |nodes| ==> nodes[i].next == At(nodes, i + 1)
  }

  ghost predicate Prevs(nodes: seq<Node>)
    reads nodes`prev
  {
    forall i {:trigger nodes[i].prev} :: 0 <= i < |nodes| ==> nodes[i].prev == At(nodes, i - 1)
  }

  /** The nodes are linked both ways in this order. */
  ghost predicate Linked(nodes: seq<Node>)
    reads nodes`next, nodes`prev
  {
    Distinct(nodes) && Nexts(nodes) && Prevs(nodes)
  }

  lemma NextsTail(nodes: seq<Node>)
    requires Nexts(nodes) && nodes != []
    ensures Nexts(nodes[1..])
  {
    var ns := nodes[1..];
    forall i | 0 <= i < |ns| ensures ns[i].next == At(ns, i + 1) {
      assert nodes[i + 1].next == At(nodes, i + 2);
    }
  }

  lemma PrevsFront(nodes: seq<Node>)
    requires Prevs(nodes) && nodes != []
    ensures Prevs(nodes[..|nodes| - 1])
  {
    var ns := nodes[..|nodes| - 1];
    forall i | 0 <= i < |ns| ensures ns[i].prev == At(ns, i - 1) {
      assert nodes[i].prev == At(nodes, i - 1);
    }
  }

  lemma NextsCons(x: Node, nodes: seq<Node>)
    requires Nexts(nodes) && x.next == At(nodes, 0)
    ensures Nexts([x] + nodes)
  {
    forall i | 0 <= i <= |nodes| ensures ([x] + nodes)[i].next == At([x] + nodes, i + 1) {
      if i > 0 { assert nodes[i - 1].next == At(nodes, i); }
    }
  }

  lemma DistinctCons(x: Node, nodes: seq<Node>)
    requires Distinct(nodes) && x !in nodes
    ensures Distinct([x] + nodes)
  {
  }

  lemma PrevsSnoc(nodes: seq<Node>, x: Node)
    requires Prevs(nodes) && x.prev == At(nodes, |nodes| - 1)
    ensures Prevs(nodes + [x])
  {
    forall i | 0 <= i <= |nodes| ensures (nodes + [x])[i].prev == At(nodes + [x], i - 1) {
      if i < |nodes| { assert nodes[i].prev == At(nodes, i - 1); }
    }
  }

  lemma OneNode(nodes: seq<Node>)
    ensures |nodes| == 1 ==> Prevs(nodes[1..]) && Nexts(nodes[..|nodes| - 1])
  {
  }

  /** Makes `x` the node before the first. */
  method LinkBefore(x: Node, ghost nodes: seq<Node>, head: Node)
    requires Distinct(nodes) && nodes != [] && head == nodes[0] && Prevs(nodes) && x !in nodes && x.prev == null
    modifies head`prev
    ensures Prevs([x] + nodes)
  {
    head.prev := x;
    ghost var ns := [x] + nodes;
    forall i | 0 <= i < |ns| ensures ns[i].prev == At(ns, i - 1) {
      if i > 1 { assert nodes[i - 1].prev == At(nodes, i - 2); }
    }
  }

  method LinkAfter(ghost nodes: seq<Node>, tail: Node, x: Node)
    requires Distinct(nodes) && nodes != [] && tail == nodes[|nodes| - 1] && Nexts(nodes) && x !in nodes && x.next == null
    modifies tail`next
    ensures Nexts(nodes + [x])
  {
    tail.next := x;
    ghost var ns := nodes + [x];
    forall i | 0 <= i < |ns| ensures ns[i].next == At(ns, i + 1) {
      if i + 1 < |nodes| { assert nodes[i].next == At(nodes, i + 1); }
    }
  }

  method CutBefore(ghost nodes: seq<Node>, second: Node)
    requires Distinct(nodes) && |nodes| > 1 && second == nodes[1] && Prevs(nodes)
    modifies second`prev
    ensures Prevs(nodes[1..])
  {
    second.prev := null;
    ghost var ns := nodes[1..];
    forall i | 0 <= i < |ns| ensures ns[i].prev == At(ns, i - 1) {
      if i > 0 { assert nodes[i + 1].prev == At(nodes, i); }
    }
  }

  method CutAfter(ghost nodes: seq<Node>, last: Node)
    requires Distinct(nodes) && |nodes| > 1 && last == nodes[|nodes| - 2] && Nexts(nodes)
    modifies last`next
    ensures Nexts(nodes[..|nodes| - 1])
  {
    last.next := null;
    ghost var ns := nodes[..|nodes| - 1];
    forall i | 0 <= i < |ns| ensures ns[i].next == At(ns, i + 1) {
      if i + 1 < |ns| { assert nodes[i].next == At(nodes, i + 1); }
    }
  }

  /** The nodes hold these rows, none of them empty or too long. */
  ghost predicate Filled(nodes: seq<Node>, rows: seq<seq<Bytes>>)
    reads nodes`items
  {
    |nodes| == |rows| && forall i :: 0 <= i < |nodes| ==> nodes[i].items == rows[i] && 0 < |rows[i]| <= NODE_CAPACITY
  }

  // ---------------------------------------------------------------------------
  // Rows put end to end.

  lemma FlatFirst(rows: seq<seq<Bytes>>)
    requires rows != []
    ensures Flat(rows) == rows[0] + Flat(rows[1..])
  {
  }

  lemma FlatLast(rows: seq<seq<Bytes>>, row: seq<Bytes>)
    ensures Flat(rows + [row]) == Flat(rows) + row
  {
    FlatConcat(rows, [row]);
    assert Flat([row]) == row + Flat([row][1..]);
  }

  lemma FlatNew(rows: seq<seq<Bytes>>, row: seq<Bytes>)
    ensures Flat([row] + rows) == row + Flat(rows)
  {
    assert ([row] + rows)[1..] == rows;
  }

  lemma SplitLast(rows: seq<seq<Bytes>>)
    requires rows != []
    ensures rows == rows[..|rows| - 1] + [rows[|rows| - 1]]
    ensures Flat(rows) == Flat(rows[..|rows| - 1]) + rows[|rows| - 1]
  {
    hide Flat;
    LastSplits(rows);
    FlatLast(rows[..|rows| - 1], rows[|rows| - 1]);
  }

  /** Row `i` begins after the rows before it. */
  lemma FlatRow(rows: seq<seq<Bytes>>, i: nat)
    requires i < |rows|
    ensures var at := |Flat(rows[..i])|;
            && |Flat(rows[..i + 1])| == at + |rows[i]| <= |Flat(rows)|
            && Flat(rows)[at..at + |rows[i]|] == rows[i]
  {
    FlatLast(rows[..i], rows[i]);
    assert rows[..i] + [rows[i]] == rows[..i + 1] && rows[..i + 1] + rows[i + 1..] == rows;
    FlatConcat(rows[..i + 1], rows[i + 1..]);
  }

  lemma FlatAll(rows: seq<seq<Bytes>>)
    ensures rows[..|rows|] == rows && rows[..0] == []
  {
  }

  lemma FlatUpdated(rows: seq<seq<Bytes>>, i: nat, k: nat, val: Bytes)
    requires i < |rows| && k < |rows[i]|
    ensures |Flat(rows[..i])| + k < |Flat(rows)|
    ensures Flat(rows[i := rows[i][k := val]]) == Flat(rows)[|Flat(rows[..i])| + k := val]
  {
    var row := rows[i][k := val];
    var before, after := Flat(rows[..i]), Flat(rows[i + 1..]);
    Surround(rows, i, rows[i]);
    Surround(rows, i, row);
    assert rows[i := rows[i]] == rows;
    assert (before + rows[i] + after)[|before| + k := val] == before + row + after;
  }

  lemma Surround(rows: seq<seq<Bytes>>, i: nat, row: seq<Bytes>)
    requires i < |rows|
    ensures Flat(rows[i := row]) == Flat(rows[..i]) + row + Flat(rows[i + 1..])
  {
    FlatLast(rows[..i], row);
    FlatConcat(rows[..i] + [row], rows[i + 1..]);
    assert rows[i := row] == rows[..i] + [row] + rows[i + 1..];
  }

  class Quicklist {
    var head: Node?
    var tail: Node?
    var count: int
    var nodeCount: int
    ghost var nodes: seq<Node>
    ghost var rows: seq<seq<Bytes>>

    ghost predicate Valid()
      reads this, nodes
    {
      && Linked(nodes) && Filled(nodes, rows)
      && head == At(nodes, 0) && tail == At(nodes, |nodes| - 1)
      && nodeCount == |nodes| && count == |Flat(rows)|
    }

    ghost function Contents(): seq<Bytes>
      reads this
    {
      Flat(rows)
    }

    constructor ()
      ensures Valid() && Contents() == [] && nodes == []
    {
      head, tail, count, nodeCount := null, null, 0, 0;
      nodes, rows := [], [];
    }

    /** The first element of an empty list. */
    method PushOnly(val: Bytes)
      requires Valid() && nodes == []
      modifies this
      ensures Valid() && Contents() == [val] && fresh(nodes)
    {
      hide Flat;
      FlatNew([], [val]);
      NoRows();
      var node := new Node(null, null, [val]);
      head, tail, nodeCount, count := node, node, 1, 1;
      nodes, rows := [node], [[val]];
      assert [[val]] == [[val]] + [] && [val] + [] == [val];
    }

    method AddFrontNode(val: Bytes)
      requires Valid() && head != null
      modifies this, nodes
      ensures Valid() && Contents() == [val] + old(Contents())
      ensures |nodes| == |old(nodes)| + 1 && fresh(nodes[0]) && nodes[1..] == old(nodes)
    {
      hide Flat, Nexts, Prevs, Distinct;
      FlatNew(rows, [val]);
      var node := new Node(null, head, [val]);
      DistinctCons(node, nodes);
      NextsCons(node, nodes);
      LinkBefore(node, nodes, head);
      head := node;
      nodeCount, count := nodeCount + 1, count + 1;
      nodes, rows := [node] + nodes, [[val]] + rows;
    }

    method AddBackNode(val: Bytes)
      requires Valid() && tail != null
      modifies this, nodes
      ensures Valid() && Contents() == old(Contents()) + [val]
      ensures |nodes| == |old(nodes)| + 1 && fresh(nodes[|nodes| - 1]) && nodes[..|nodes| - 1] == old(nodes)
    {
      hide Flat, Nexts, Prevs;
      FlatLast(rows, [val]);
      var node := new Node(tail, null, [val]);
      PrevsSnoc(nodes, node);
      LinkAfter(nodes, tail, node);
      tail := node;
      nodeCount, count := nodeCount + 1, count + 1;
      nodes, rows := nodes + [node], rows + [[val]];
    }

    /** Replaces the items of one node. */
    method SetItems(node: Node, ghost i: nat, items: seq<Bytes>)
      requires Linked(nodes) && Filled(nodes, rows) && i < |nodes| && node == nodes[i] && 0 < |items| <= NODE_CAPACITY
      modifies node`items, this`rows
      ensures Linked(nodes) && Filled(nodes, rows) && rows == old(rows)[i := items]
    {
      node.items := items;
      rows := rows[i := items];
    }

    method LPush(val: Bytes)
      requires Valid()
      modifies this, nodes
      ensures Valid() && Contents() == [val] + old(Contents())
      ensures forall i :: 0 <= i < |nodes| ==> nodes[i] in old(nodes) || fresh(nodes[i])
    {
      hide Flat, Linked, Filled;
      Bounds();
      if head == null {
        NoRows();
        PushOnly(val);
        assert [val] + [] == [val];
        return;
      }
      if |head.items| < NODE_CAPACITY {
        PushedFront(rows, val);
        SetItems(head, 0, [val] + head.items);
        count := count + 1;
      } else {
        AddFrontNode(val);
      }
    }

    method RPush(val: Bytes)
      requires Valid()
      modifies this, nodes
      ensures Valid() && Contents() == old(Contents()) + [val]
      ensures forall i :: 0 <= i < |nodes| ==> nodes[i] in old(nodes) || fresh(nodes[i])
    {
      hide Flat, Linked, Filled;
      Bounds();
      if tail == null {
        NoRows();
        PushOnly(val);
        assert [] + [val] == [val];
        return;
      }
      if |tail.items| < NODE_CAPACITY {
        PushedBack(rows, val);
        SetItems(tail, |nodes| - 1, tail.items + [val]);
        count := count + 1;
      } else {
        AddBackNode(val);
      }
    }

    /** What the ends of the chain hold. */
    lemma Bounds()
      requires Valid()
      ensures |rows| == |nodes| && (nodes == [] <==> head == null) && (nodes == [] <==> tail == null)
      ensures nodes != [] ==> head.items == rows[0] && tail.items == rows[|rows| - 1]
      ensures nodes != [] ==> 0 < |rows[0]| <= NODE_CAPACITY && 0 < |rows[|rows| - 1]| <= NODE_CAPACITY
    {
      hide Flat;
    }

    lemma Ends()
      requires Valid() && nodes != []
      ensures head.next == At(nodes, 1) && tail.prev == At(nodes, |nodes| - 2)
    {
      hide Flat, Filled;
    }

    /** Unlinks the first node, whose items are gone. */
    method DropFront()
      requires Valid() && nodes != []
      modifies this, nodes
      ensures Valid() && rows == old(rows)[1..] && nodes == old(nodes)[1..]
    {
      hide Flat, Filled, Nexts, Prevs;
      Bounds();
      FilledParts(nodes, rows);
      NextsTail(nodes);
      FlatFirst(rows);
      Ends();
      count := count - |head.items|;
      head := head.next;
      if head != null { CutBefore(nodes, head); } else { OneNode(nodes); tail := null; }
      nodeCount := nodeCount - 1;
      nodes, rows := nodes[1..], rows[1..];
    }

    method DropBack()
      requires Valid() && nodes != []
      modifies this, nodes
      ensures Valid() && rows == old(rows)[..|old(rows)| - 1] && nodes == old(nodes)[..|old(nodes)| - 1]
    {
      hide Flat, Filled, Nexts, Prevs;
      Bounds();
      FilledParts(nodes, rows);
      PrevsFront(nodes);
      SplitLast(rows);
      Ends();
      count := count - |tail.items|;
      tail := tail.prev;
      if tail != null { CutAfter(nodes, tail); } else { OneNode(nodes); head := null; }
      nodeCount := nodeCount - 1;
      nodes, rows := nodes[..|nodes| - 1], rows[..|rows| - 1];
    }

    method LPop() returns (r: Option<Bytes>)
      requires Valid()
      modifies this, nodes
      ensures Valid() && forall i :: 0 <= i < |nodes| ==> nodes[i] in old(nodes)
      ensures r == if old(Contents()) == [] then None else Some(old(Contents())[0])
      ensures Contents() == if old(Contents()) == [] then [] else old(Contents())[1..]
    {
      hide Flat, Linked, Filled;
      Bounds();
      EmptyIff(rows);
      if count == 0 || head == null { return None; }
      PoppedFront(rows);
      var val, rest := head.items[0], head.items[1..];
      if |rest| == 0 {
        DropFront();
      } else {
        SetItems(head, 0, rest);
        count := count - 1;
      }
      return Some(val);
    }

    method RPop() returns (r: Option<Bytes>)
      requires Valid()
      modifies this, nodes
      ensures Valid() && forall i :: 0 <= i < |nodes| ==> nodes[i] in old(nodes)
      ensures r == if old(Contents()) == [] then None else Some(old(Contents())[|old(Contents())| - 1])
      ensures Contents() == if old(Contents()) == [] then [] else old(Contents())[..|old(Contents())| - 1]
    {
      hide Flat, Linked, Filled;
      Bounds();
      EmptyIff(rows);
      if count == 0 || tail == null { return None; }
      PoppedBack(rows);
      var lastIdx := |tail.items| - 1;
      var val, rest := tail.items[lastIdx], tail.items[..lastIdx];
      if |rest| == 0 {
        DropBack();
      } else {
        SetItems(tail, |nodes| - 1, rest);
        count := count - 1;
      }
      return Some(val);
    }

    /** The node that holds position `idx`, and the position it starts at. */
    method Locate(idx: int) returns (node: Node, start: nat, ghost i: nat)
      requires Valid() && 0 <= idx < count
      ensures i < |nodes| == |rows| && node == nodes[i] && node.items == rows[i]
      ensures start == |Flat(rows[..i])| && start <= idx < start + |rows[i]|
    {
      hide Flat, Prevs;
      FlatAll(rows);
      NoRows();
      var curr, currIdx := head, 0;
      i := 0;
      while curr != null
        invariant 0 <= i <= |nodes| && curr == At(nodes, i) && currIdx == |Flat(rows[..i])| <= idx
        decreases |nodes| - i
      {
        FlatRow(rows, i);
        var nodeLen := |curr.items|;
        if idx < currIdx + nodeLen { return curr, currIdx, i; }
        currIdx := currIdx + nodeLen;
        assert nodes[i].next == At(nodes, i + 1);
        curr, i := curr.next, i + 1;
      }
      assert false;
    }

    method LIndex(idx: int) returns (r: Option<Bytes>)
      requires Valid()
      ensures var k := Normalize(idx, |Contents()|);
              r == if 0 <= k < |Contents()| then Some(Contents()[k]) else None
    {
      hide Flat, Linked, Filled;
      if count == 0 { return None; }
      var k := Normalize(idx, count);
      if k < 0 || k >= count { return None; }
      var node, start, i := Locate(k);
      FlatRow(rows, i);
      assert Flat(rows)[start..start + |rows[i]|][k - start] == Flat(rows)[k];
      return Some(node.items[k - start]);
    }

    method LSet(idx: int, val: Bytes) returns (ok: bool)
      requires Valid()
      modifies this, nodes
      ensures Valid() && nodes == old(nodes)
      ensures var k := Normalize(idx, |old(Contents())|);
              && (ok <==> 0 <= k < |old(Contents())|)
              && Contents() == if ok then old(Contents())[k := val] else old(Contents())
    {
      hide Flat, Linked, Filled;
      if count == 0 { return false; }
      var k := Normalize(idx, count);
      if k < 0 || k >= count { return false; }
      var node, start, i := Locate(k);
      FlatUpdated(rows, i, k - start, val);
      RowsBounded(nodes, rows, i);
      SetItems(node, i, node.items[k - start := val]);
      return true;
    }

    method LRange(start: int, stop: int) returns (result: seq<Bytes>)
      requires Valid()
      ensures result == Window(Contents(), start, stop)
    {
      hide Flat, Linked, Filled, Window;
      result := [];
      var first := Normalize(start, count);
      var last := Normalize(stop, count);
      if first < 0 { first := 0; }
      if last >= count { last := count - 1; }
      WindowIs(Contents(), start, stop, first, last);
      if count == 0 || first > last || first >= count { return; }
      result := Gather(first, last);
    }

    /** Walks the nodes that meet the range and takes what lies in it. */
    method Gather(start: nat, stop: nat) returns (result: seq<Bytes>)
      requires Valid() && start <= stop < count
      ensures result == Contents()[start..stop + 1]
    {
      hide Flat, Prevs, Filled;
      FlatAll(rows);
      NoRows();
      Bounds();
      ghost var all := Contents();
      result := [];
      var currIdx, curr := 0, head;
      ghost var i := 0;
      while curr != null
        invariant 0 <= i <= |nodes| && curr == At(nodes, i) && currIdx == |Flat(rows[..i])| <= stop
        invariant result == Taken(all, start, currIdx)
        decreases |nodes| - i
      {
        FlatRow(rows, i);
        RowsBounded(nodes, rows, i);
        var nodeLen := |curr.items|;
        var nodeEnd := currIdx + nodeLen - 1;
        if nodeEnd >= start {
          var s := if start > currIdx then start - currIdx else 0;
          var e := if stop < nodeEnd then stop - currIdx else nodeLen - 1;
          TakenRow(all, start, currIdx, rows[i], s, e);
          result := result + curr.items[s..e + 1];
        }
        if nodeEnd >= stop { return; }
        currIdx := currIdx + nodeLen;
        assert nodes[i].next == At(nodes, i + 1);
        curr, i := curr.next, i + 1;
      }
      assert false;
    }
  }

  /** What a walk from the left has taken when it reaches position `upto`. */
  ghost function Taken(all: seq<Bytes>, start: nat, upto: nat): seq<Bytes>
    requires upto <= |all|
  {
    if start < upto then all[start..upto] else []
  }

  lemma TakenRow(all: seq<Bytes>, start: nat, at: nat, row: seq<Bytes>, s: nat, e: nat)
    requires at + |row| <= |all| && all[at..at + |row|] == row && s <= e < |row| && at + |row| > start
    requires s == if start > at then start - at else 0
    ensures Taken(all, start, at) + row[s..e + 1] == Taken(all, start, at + e + 1)
  {
    var n := at + |row|;
    SliceOfSlice(all, at, n, s, e + 1);
    assert start < at + e + 1;
    if start < at {
      assert all[start..at] + all[at..at + e + 1] == all[start..at + e + 1];
    }
  }

  lemma RowsBounded(nodes: seq<Node>, rows: seq<seq<Bytes>>, i: nat)
    requires Filled(nodes, rows) && i < |nodes|
    ensures |rows| == |nodes| && nodes[i].items == rows[i] && 0 < |rows[i]| <= NODE_CAPACITY
  {
  }

  lemma EmptyIff(rows: seq<seq<Bytes>>)
    ensures rows == [] ==> Flat(rows) == []
    ensures rows != [] && |rows[0]| > 0 ==> |Flat(rows)| > 0
  {
  }

  lemma PoppedFront(rows: seq<seq<Bytes>>)
    requires rows != [] && rows[0] != []
    ensures |Flat(rows)| > 0 && Flat(rows)[0] == rows[0][0]
    ensures Flat(rows[0 := rows[0][1..]]) == Flat(rows)[1..]
    ensures |rows[0]| == 1 ==> Flat(rows[1..]) == Flat(rows)[1..]
  {
    hide Flat;
    FlatFirst(rows);
    FlatNew(rows[1..], rows[0][1..]);
    assert rows[0 := rows[0][1..]] == [rows[0][1..]] + rows[1..];
  }

  lemma PoppedBack(rows: seq<seq<Bytes>>)
    requires rows != [] && rows[|rows| - 1] != []
    ensures var n, last := |Flat(rows)|, rows[|rows| - 1];
            && n > 0 && Flat(rows)[n - 1] == last[|last| - 1]
            && Flat(rows[|rows| - 1 := last[..|last| - 1]]) == Flat(rows)[..n - 1]
            && (|last| == 1 ==> Flat(rows[..|rows| - 1]) == Flat(rows)[..n - 1])
  {
    hide Flat;
    var front, last := rows[..|rows| - 1], rows[|rows| - 1];
    SplitLast(rows);
    FlatLast(front, last[..|last| - 1]);
    assert rows[|rows| - 1 := last[..|last| - 1]] == front + [last[..|last| - 1]];
  }

  lemma FilledParts(nodes: seq<Node>, rows: seq<seq<Bytes>>)
    requires Filled(nodes, rows) && nodes != []
    ensures Filled(nodes[1..], rows[1..]) && Filled(nodes[..|nodes| - 1], rows[..|rows| - 1])
  {
  }

  lemma NoRows()
    ensures Flat<Bytes>([]) == []
  {
  }

  lemma PushedFront(rows: seq<seq<Bytes>>, val: Bytes)
    requires rows != []
    ensures Flat(rows[0 := [val] + rows[0]]) == [val] + Flat(rows)
  {
    hide Flat;
    FlatFirst(rows);
    FlatNew(rows[1..], [val] + rows[0]);
    assert rows[0 := [val] + rows[0]] == [[val] + rows[0]] + rows[1..];
    assert [val] + (rows[0] + Flat(rows[1..])) == ([val] + rows[0]) + Flat(rows[1..]);
  }

  lemma PushedBack(rows: seq<seq<Bytes>>, val: Bytes)
    requires rows != []
    ensures Flat(rows[|rows| - 1 := rows[|rows| - 1] + [val]]) == Flat(rows) + [val]
  {
    hide Flat;
    var front, last := rows[..|rows| - 1], rows[|rows| - 1];
    SplitLast(rows);
    FlatLast(front, last + [val]);
    assert rows[|rows| - 1 := last + [val]] == front + [last + [val]];
    assert Flat(front) + (last + [val]) == (Flat(front) + last) + [val];
  }
}
