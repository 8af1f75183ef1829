/** The span-annotated skip list behind large sorted sets. */
module SkipList {
  import opened Base
  import opened SortedElements

  const MAX_LEVEL: nat := 32

  datatype Level = Level(forward: Node?, span: int)

  class Node {
    const elem: Element
    const height: nat           // number of levels, fixed when the node is made
    var backward: Node?
    var levels: seq<Level>

    constructor (height: nat, elem: Element)
      ensures this.height == height && this.elem == elem && backward == null
      ensures |levels| == height
      ensures forall i :: 0 <= i < height ==> levels[i] == Level(null, 0)
    {
      this.height, this.elem := height, elem;
      backward := null;
      levels := seq(height, _ => Level(null, 0));
    }
  }

  // ---------------------------------------------------------------------------
  // Positions. `ns` is the header followed by the nodes in order, so the position
  // of a node is its 1-based rank.

  /** The position of the first node after `p` that reaches level `i`, or |ns|. */
  ghost function Next(ns: seq<Node>, i: nat, p: nat): (q: nat)
    requires p < |ns|
    ensures p < q <= |ns|
    ensures q < |ns| ==> ns[q].height > i
    ensures forall k :: p < k < q ==> ns[k].height <= i
    decreases |ns| - p
  {
    if p + 1 == |ns| || ns[p + 1].height > i then p + 1 else Next(ns, i, p + 1)
  }

  lemma NextIs(ns: seq<Node>, i: nat, p: nat, q: nat)
    requires p < q <= |ns|
    requires q < |ns| ==> ns[q].height > i
    requires forall k :: p < k < q ==> ns[k].height <= i
    ensures Next(ns, i, p) == q
  {
  }

  /** What a correct level-`i` link of position `p` holds. A span is a distance in rank;
      next to a nil forward it counts the nodes that are left. */
  ghost function LinkSpec(ns: seq<Node>, i: nat, p: nat): Level
    requires p < |ns|
  {
    var q := Next(ns, i, p);
    if q < |ns| then Level(ns[q], q - p) else Level(null, |ns| - 1 - p)
  }

  /** `ns'` is `ns` with `x` put in just after position `r`. */
  ghost predicate Inserted(ns: seq<Node>, r: nat, x: Node, ns': seq<Node>) {
    && r < |ns| && |ns'| == |ns| + 1
    && (forall k {:trigger ns'[k]} {:trigger ns[k]} :: 0 <= k <= r ==> ns'[k] == ns[k])
    && ns'[r + 1] == x
    && (forall k {:trigger ns'[k]} :: r + 1 < k < |ns'| ==> ns'[k] == ns[k - 1])
  }

  function Higher(h: int, level: int): int { if h > level then h else level }

  lemma InsertedAfter(ns: seq<Node>, r: nat, x: Node) returns (ns': seq<Node>)
    requires r < |ns|
    ensures Inserted(ns, r, x, ns')
  {
    ns' := ns[..r + 1] + [x] + ns[r + 1..];
  }

  /** `u` is the last position up to `r` that reaches level `i`. */
  ghost predicate Before(ns: seq<Node>, i: nat, u: nat, r: nat) {
    u <= r < |ns| && ns[u].height > i && r < Next(ns, i, u)
  }

  /** Where position `p` of the shorter list is found in the longer one. */
  ghost function Shift(r: nat, p: nat): nat {
    if p <= r then p else p + 1
  }

  /** Inserting `x` changes the links of one old node per level: its predecessor. */
  lemma LinkAfterInsert(ns: seq<Node>, r: nat, x: Node, ns': seq<Node>, i: nat, u: nat, p: nat)
    requires Inserted(ns, r, x, ns') && Before(ns, i, u, r)
    requires p < |ns| && ns[p].height > i
    ensures ns'[Shift(r, p)] == ns[p]
    ensures LinkSpec(ns', i, Shift(r, p)) ==
            if p != u then LinkSpec(ns, i, p)
            else if x.height > i then Level(x, r - u + 1)
            else Level(LinkSpec(ns, i, u).forward, LinkSpec(ns, i, u).span + 1)
  {
    var q := Next(ns, i, p);
    if p < u { assert q <= u; }
    if u < p { assert r < p; }
    if p == u && x.height > i { NextIs(ns', i, p, r + 1); }
    else if q <= r { NextIs(ns', i, p, q); }
    else { NextIs(ns', i, Shift(r, p), q + 1); }
  }

  /** The new node takes over what is left of its predecessor's link. */
  lemma NewLinkAfterInsert(ns: seq<Node>, r: nat, x: Node, ns': seq<Node>, i: nat, u: nat)
    requires Inserted(ns, r, x, ns') && Before(ns, i, u, r)
    ensures LinkSpec(ns', i, r + 1) == Level(LinkSpec(ns, i, u).forward, LinkSpec(ns, i, u).span - (r - u))
  {
    NextIs(ns', i, r + 1, Next(ns, i, u) + 1);
  }

  // ---------------------------------------------------------------------------
  // Link tables: row `p` holds the levels of the node at position `p`.

  type Table = seq<seq<Level>>

  ghost predicate RowLink(row: seq<Level>, ns: seq<Node>, i: nat, p: nat)
    requires p < |ns|
  {
    i < |row| && row[i] == LinkSpec(ns, i, p)
  }

  /** Levels lo..hi of `t` link the list `ns`. */
  ghost predicate Links(ns: seq<Node>, t: Table, lo: int, hi: int) {
    && |t| == |ns|
    && forall i: nat, p :: lo <= i < hi && 0 <= p < |ns| && i < ns[p].height ==> RowLink(t[p], ns, i, p)
  }

  /** Levels lo..hi of `t`, the table of a list one node longer, link the shorter `ns`. */
  ghost predicate LinksWithout(ns: seq<Node>, r: nat, t: Table, lo: int, hi: int) {
    && |t| == |ns| + 1
    && forall i: nat, p :: lo <= i < hi && 0 <= p < |ns| && i < ns[p].height ==> RowLink(t[Shift(r, p)], ns, i, p)
  }

  /** `t'` differs from `t` at most on level `i`. */
  ghost predicate SameOffLevel(t: Table, t': Table, i: nat) {
    && |t| == |t'|
    && forall p :: 0 <= p < |t| ==> SameRowOffLevel(t[p], t'[p], i)
  }

  ghost predicate SameRowOffLevel(a: seq<Level>, b: seq<Level>, i: nat) {
    |a| == |b| && forall j :: 0 <= j < |a| && j != i ==> a[j] == b[j]
  }

  lemma OtherLevelsKeep(ns: seq<Node>, t: Table, t': Table, i: nat, lo: int, hi: int)
    requires SameOffLevel(t, t', i) && !(lo <= i < hi) && Links(ns, t, lo, hi)
    ensures Links(ns, t', lo, hi)
  {
    forall j: nat, p | lo <= j < hi && 0 <= p < |ns| && j < ns[p].height
      ensures RowLink(t'[p], ns, j, p)
    {
      assert SameRowOffLevel(t[p], t'[p], i) && RowLink(t[p], ns, j, p);
    }
  }

  lemma OtherLevelsKeepWithout(ns: seq<Node>, r: nat, t: Table, t': Table, i: nat, lo: int, hi: int)
    requires SameOffLevel(t, t', i) && !(lo <= i < hi) && LinksWithout(ns, r, t, lo, hi)
    ensures LinksWithout(ns, r, t', lo, hi)
  {
    forall j: nat, p | lo <= j < hi && 0 <= p < |ns| && j < ns[p].height
      ensures RowLink(t'[Shift(r, p)], ns, j, p)
    {
      assert SameRowOffLevel(t[Shift(r, p)], t'[Shift(r, p)], i) && RowLink(t[Shift(r, p)], ns, j, p);
    }
  }

  /** Rewriting the predecessor's link, and the new node's, moves level `i` to the longer list. */
  lemma LevelInserted(ns: seq<Node>, r: nat, x: Node, ns': seq<Node>, t: Table, t': Table, i: nat, u: nat)
    requires Inserted(ns, r, x, ns') && Before(ns, i, u, r)
    requires LinksWithout(ns, r, t, i, i + 1) && |t'| == |t|
    requires forall p :: 0 <= p < |t| && p != u && p != r + 1 ==> t'[p] == t[p]
    requires RowLink(t'[u], ns', i, u)
    requires x.height > i ==> RowLink(t'[r + 1], ns', i, r + 1)
    ensures Links(ns', t', i, i + 1)
  {
    forall p | 0 <= p < |ns'| && i < ns'[p].height
      ensures RowLink(t'[p], ns', i, p)
    {
      if p != u && p != r + 1 {
        var q := if p <= r then p else p - 1;
        assert Shift(r, q) == p;
        LinkAfterInsert(ns, r, x, ns', i, u, q);
        assert RowLink(t[p], ns, i, q);
      }
    }
  }

  /** The converse: rewriting the predecessor's link moves level `i` back to the shorter list. */
  lemma LevelRemoved(ns: seq<Node>, r: nat, x: Node, ns': seq<Node>, t: Table, t': Table, i: nat, u: nat)
    requires Inserted(ns, r, x, ns') && Before(ns, i, u, r)
    requires Links(ns', t, i, i + 1) && |t'| == |t|
    requires forall p :: 0 <= p < |t| && p != u ==> t'[p] == t[p]
    requires RowLink(t'[u], ns, i, u)
    ensures LinksWithout(ns, r, t', i, i + 1)
  {
    forall p | 0 <= p < |ns| && i < ns[p].height
      ensures RowLink(t'[Shift(r, p)], ns, i, p)
    {
      LinkAfterInsert(ns, r, x, ns', i, u, p);
      assert RowLink(t[Shift(r, p)], ns', i, Shift(r, p));
    }
  }

  // ---------------------------------------------------------------------------
  // The mutable list.

  /** The nodes `ns` hold the rows of `t`. */
  ghost predicate Holds(ns: seq<Node>, t: Table)
    reads ns`levels
  {
    |t| == |ns| && forall p :: 0 <= p < |ns| ==> ns[p].levels == t[p]
  }

  ghost predicate Distinct(ns: seq<Node>) {
    forall j, k :: 0 <= j < k < |ns| ==> ns[j] != ns[k]
  }

  ghost predicate NodesSorted(ns: seq<Node>) {
    forall j, k :: 1 <= j < k < |ns| ==> Less(ns[j].elem, ns[k].elem)
  }

  /** The frame of a list: header first, no node twice, in order, none above `level`. */
  ghost predicate Spine(ns: seq<Node>, level: int) {
    && |ns| > 0 && ns[0].height == MAX_LEVEL
    && 1 <= level <= MAX_LEVEL
    && (forall p :: 1 <= p < |ns| ==> 1 <= ns[p].height <= level)
    && Distinct(ns) && NodesSorted(ns)
  }

  ghost predicate Shape(ns: seq<Node>, t: Table) {
    |t| == |ns| && forall p :: 0 <= p < |ns| ==> |t[p]| == ns[p].height
  }

  ghost predicate DeadLevelsEmpty(t: Table, level: int) {
    |t| > 0 && forall i :: 0 <= level <= i < |t[0]| ==> t[0][i].forward == null
  }

  /** Every live level is an exactly spanned sublist; the dead levels of the header are empty. */
  ghost predicate LevelsOk(ns: seq<Node>, t: Table, level: int) {
    Shape(ns, t) && Links(ns, t, 0, level) && DeadLevelsEmpty(t, level)
  }

  /** The backward links and the tail. */
  ghost predicate ChainOk(ns: seq<Node>, tail: Node?)
    reads ns`backward
  {
    && (|ns| > 1 ==> ns[1].backward == null)
    && (forall p :: 2 <= p < |ns| ==> ns[p].backward == ns[p - 1])
    && |ns| > 0 && tail == (if |ns| == 1 then null else ns[|ns| - 1])
  }

  ghost function Successor(ns: seq<Node>, p: nat): Node? {
    if p + 1 < |ns| then ns[p + 1] else null
  }

  /** Level 0 visits every node. */
  lemma BottomLink(ns: seq<Node>, t: Table, p: nat, level: int)
    requires Spine(ns, level) && LevelsOk(ns, t, level) && p < |ns|
    ensures |t[p]| > 0 && t[p][0].forward == Successor(ns, p)
  {
    NextIs(ns, 0, p, p + 1);
    assert RowLink(t[p], ns, 0, p);
  }

  ghost function ElementsOf(ns: seq<Node>): (s: seq<Element>)
    requires |ns| > 0
    ensures |s| == |ns| - 1
    ensures forall k :: 0 <= k < |s| ==> s[k] == ns[k + 1].elem
  {
    seq(|ns| - 1, k requires 0 <= k < |ns| - 1 => ns[k + 1].elem)
  }

  /** The search path for the gap after position `r`: per level, the last node before it. */
  ghost predicate Path(ns: seq<Node>, update: seq<Node>, rank: seq<int>, r: int, top: int) {
    && |update| == |rank| == top && 0 <= r < |ns|
    && forall i :: 0 <= i < top ==>
         0 <= rank[i] && Before(ns, i, rank[i], r) && ns[rank[i]] == update[i]
  }

  /** What a walk looking for `e` may step over; the rank walk also steps onto `e`. */
  predicate Under(a: Element, e: Element, inclusive: bool) {
    Less(a, e) || (inclusive && a == e)
  }

  ghost predicate AllUnder(ns: seq<Node>, r: int, e: Element, inclusive: bool) {
    forall p :: 1 <= p <= r && p < |ns| ==> Under(ns[p].elem, e, inclusive)
  }

  ghost predicate NoneUnder(ns: seq<Node>, q: int, e: Element, inclusive: bool) {
    forall p :: 1 <= p && q <= p < |ns| ==> !Under(ns[p].elem, e, inclusive)
  }

  /** Level `i` of the search has stopped at `u`, with the walk now at `r`. */
  ghost predicate Stopped(ns: seq<Node>, i: int, u: int, r: int, e: Element, inclusive: bool) {
    0 <= i && 0 <= u <= r && Before(ns, i, u, r) && NoneUnder(ns, Next(ns, i, u), e, inclusive)
  }

  /** The new node keeps the list in order when the gap was found by a search. */
  lemma SpineInserted(ns: seq<Node>, r: nat, x: Node, ns': seq<Node>, level: int)
    requires Inserted(ns, r, x, ns') && Spine(ns, level) && x !in ns && 1 <= x.height <= level
    requires AllUnder(ns, r, x.elem, false) && NoneUnder(ns, r + 1, x.elem, false)
    requires forall p :: 1 <= p < |ns| ==> ns[p].elem != x.elem
    ensures Spine(ns', level)
  {
    forall p | r < p < |ns|
      ensures Less(x.elem, ns[p].elem)
    {
      LessTotal(x.elem, ns[p].elem);
    }
    forall j, k | 0 <= j < k < |ns'|
      ensures ns'[j] != ns'[k] && (1 <= j ==> Less(ns'[j].elem, ns'[k].elem))
    {
      assert j <= r || j == r + 1 || ns'[j] == ns[j - 1];
      assert k <= r || k == r + 1 || ns'[k] == ns[k - 1];
    }
  }

  /** Dropping a node keeps the list in order. */
  lemma SpineRemoved(ns: seq<Node>, r: nat, x: Node, ns': seq<Node>, level: int)
    requires Inserted(ns, r, x, ns') && Spine(ns', level)
    ensures Spine(ns, level)
  {
    forall j, k | 0 <= j < k < |ns|
      ensures ns[j] != ns[k] && (1 <= j ==> Less(ns[j].elem, ns[k].elem))
    {
      assert ns[j] == ns'[Shift(r, j)] && ns[k] == ns'[Shift(r, k)];
    }
    forall p | 1 <= p < |ns|
      ensures 1 <= ns[p].height <= level
    {
      assert ns[p] == ns'[Shift(r, p)];
    }
  }

  /** A level nobody reaches is linked by the header alone. */
  lemma LinksRaised(ns: seq<Node>, t: Table, t': Table, level: int, h: int)
    requires Spine(ns, level) && level <= h && Links(ns, t, 0, level)
    requires |t'| == |t| && forall p :: 1 <= p < |t| ==> t'[p] == t[p]
    requires |t[0]| == |t'[0]| >= h
    requires forall j :: 0 <= j < level ==> t'[0][j] == t[0][j]
    requires forall j :: level <= j < h ==> t'[0][j] == Level(null, |ns| - 1)
    ensures Links(ns, t', 0, h)
  {
    forall j: nat, p | 0 <= p < |ns| && j < ns[p].height && j < h
      ensures RowLink(t'[p], ns, j, p)
    {
      if j < level {
        assert RowLink(t[p], ns, j, p);
      } else {
        NextIs(ns, j, 0, |ns|);
      }
    }
  }

  method OpenLevels(header: Node, level: int, h: int, length: int)
    requires 0 <= level <= h <= |header.levels|
    requires forall j :: level <= j < |header.levels| ==> header.levels[j].forward == null
    modifies header`levels
    ensures |header.levels| == old(|header.levels|)
    ensures forall j :: 0 <= j < level ==> header.levels[j] == old(header.levels[j])
    ensures forall j :: level <= j < h ==> header.levels[j] == Level(null, length)
    ensures forall j :: level <= j < |header.levels| ==> header.levels[j].forward == null
  {
    var i := level;
    while i < h
      invariant level <= i <= h
      invariant |header.levels| == old(|header.levels|)
      invariant forall j :: 0 <= j < level ==> header.levels[j] == old(header.levels[j])
      invariant forall j :: level <= j < i ==> header.levels[j] == Level(null, length)
      invariant forall j :: level <= j < |header.levels| ==> header.levels[j].forward == null
    {
      header.levels := header.levels[i := Level(header.levels[i].forward, length)];
      i := i + 1;
    }
  }

  /** Splice `x` in after `u` on a level it reaches. */
  method SpliceLevel(x: Node, u: Node, i: nat, gap: int,
                     ghost ns: seq<Node>, ghost r: nat, ghost ns': seq<Node>, ghost t: Table, ghost top: nat)
    returns (ghost t': Table)
    requires Inserted(ns, r, x, ns') && Distinct(ns')
    requires 0 <= r - gap <= r && Before(ns, i, r - gap, r) && ns[r - gap] == u && i < x.height
    requires Holds(ns', t) && HalfLinked(ns, r, ns', t, i, top) && i < top
    modifies u`levels, x`levels
    ensures Holds(ns', t') && HalfLinked(ns, r, ns', t', i + 1, top)
  {
    t' := Spliced(ns, r, x, ns', t, i, r - gap, top);
    assert u == ns'[r - gap] && x == ns'[r + 1];
    x.levels := x.levels[i := Level(u.levels[i].forward, u.levels[i].span - gap)];
    u.levels := u.levels[i := Level(x, gap + 1)];
  }

  lemma Spliced(ns: seq<Node>, r: nat, x: Node, ns': seq<Node>, t: Table, i: nat, u: nat, top: nat) returns (t': Table)
    requires Inserted(ns, r, x, ns') && Before(ns, i, u, r) && i < x.height && i < top
    requires HalfLinked(ns, r, ns', t, i, top)
    ensures i < |t[u]| && i < |t[r + 1]|
    ensures |t'| == |t| && forall p :: 0 <= p < |t| && p != u && p != r + 1 ==> t'[p] == t[p]
    ensures t'[r + 1] == t[r + 1][i := Level(t[u][i].forward, t[u][i].span - (r - u))]
    ensures t'[u] == t[u][i := Level(x, r - u + 1)]
    ensures HalfLinked(ns, r, ns', t', i + 1, top)
  {
    assert RowLink(t[Shift(r, u)], ns, i, u) && ns'[u] == ns[u];
    t' := t[r + 1 := t[r + 1][i := Level(t[u][i].forward, t[u][i].span - (r - u))]][u := t[u][i := Level(x, r - u + 1)]];
    LinkAfterInsert(ns, r, x, ns', i, u, u);
    NewLinkAfterInsert(ns, r, x, ns', i, u);
    LevelMoved(ns, r, x, ns', t, t', i, u, top);
  }

  /** Lengthen the link that jumps over `x` on a level it does not reach. */
  method StretchLevel(u: Node, i: nat, ghost x: Node, ghost p: nat,
                      ghost ns: seq<Node>, ghost r: nat, ghost ns': seq<Node>, ghost t: Table, ghost top: nat)
    returns (ghost t': Table)
    requires Inserted(ns, r, x, ns') && Distinct(ns')
    requires Before(ns, i, p, r) && ns[p] == u && x.height <= i
    requires Holds(ns', t) && HalfLinked(ns, r, ns', t, i, top) && i < top
    modifies u`levels
    ensures Holds(ns', t') && HalfLinked(ns, r, ns', t', i + 1, top)
  {
    assert RowLink(t[Shift(r, p)], ns, i, p) && u == ns'[p];
    u.levels := u.levels[i := Level(u.levels[i].forward, u.levels[i].span + 1)];
    t' := t[p := u.levels];
    LinkAfterInsert(ns, r, x, ns', i, p, p);
    LevelMoved(ns, r, x, ns', t, t', i, p, top);
  }

  /** Midway through relinking: the levels below `i` link the longer list, the rest the shorter. */
  ghost predicate HalfLinked(ns: seq<Node>, r: nat, ns': seq<Node>, t: Table, i: int, top: int) {
    && Shape(ns', t) && DeadLevelsEmpty(t, top)
    && Links(ns', t, 0, i) && LinksWithout(ns, r, t, i, top)
  }

  /** One level moves to the longer list and the others stay as they are. */
  lemma LevelMoved(ns: seq<Node>, r: nat, x: Node, ns': seq<Node>, t: Table, t': Table, i: nat, u: nat, top: nat)
    requires Inserted(ns, r, x, ns') && Before(ns, i, u, r) && i < top
    requires HalfLinked(ns, r, ns', t, i, top) && SameOffLevel(t, t', i)
    requires forall p :: 0 <= p < |t| && p != u && p != r + 1 ==> t'[p] == t[p]
    requires RowLink(t'[u], ns', i, u)
    requires x.height > i ==> RowLink(t'[r + 1], ns', i, r + 1)
    ensures HalfLinked(ns, r, ns', t', i + 1, top)
  {
    assert forall p :: 0 <= p < |t| ==> SameRowOffLevel(t[p], t'[p], i);
    OtherLevelsKeep(ns', t, t', i, 0, i);
    OtherLevelsKeepWithout(ns, r, t, t', i, i + 1, top);
    LevelInserted(ns, r, x, ns', t, t', i, u);
  }

  class SkipList {
    var header: Node
    var tail: Node?
    var length: int
    var level: int
    ghost var nodes: seq<Node>   // header first, then every node in order
    ghost var table: Table       // the levels those nodes hold

    ghost predicate Valid()
      reads this, nodes
    {
      && Spine(nodes, level) && nodes[0] == header && header.elem.member == []
      && Holds(nodes, table) && LevelsOk(nodes, table, level)
      && ChainOk(nodes, tail)
      && length == |nodes| - 1
    }

    constructor ()
      ensures Valid() && fresh(nodes) && |nodes| == 1 && level == 1
    {
      var h := new Node(MAX_LEVEL, Element([], 0.0));
      header, tail, length, level := h, null, 0, 1;
      nodes, table := [h], [seq(MAX_LEVEL, _ => Level(null, 0))];
    }

    lemma AllBefore(q: nat, e: Element, inclusive: bool)
      requires NodesSorted(nodes) && q < |nodes| && Under(nodes[q].elem, e, inclusive)
      ensures AllUnder(nodes, q, e, inclusive)
    {
      forall p | 1 <= p < q
        ensures Less(nodes[p].elem, e)
      {
        if nodes[q].elem != e { LessTransitive(nodes[p].elem, nodes[q].elem, e); }
      }
    }

    lemma NoneAfter(q: nat, e: Element, inclusive: bool)
      requires NodesSorted(nodes) && 1 <= q < |nodes| && !Under(nodes[q].elem, e, inclusive)
      ensures NoneUnder(nodes, q, e, inclusive)
    {
      forall p | q < p < |nodes|
        ensures !Under(nodes[p].elem, e, inclusive)
      {
        if Less(nodes[p].elem, e) { LessTransitive(nodes[q].elem, nodes[p].elem, e); }
      }
    }

    /** Walk one level as far as the elements stay under `e`. */
    method WalkLevel(start: Node, from: int, i: int, e: Element, inclusive: bool) returns (x: Node, traversed: int)
      requires Holds(nodes, table) && Links(nodes, table, 0, level) && NodesSorted(nodes) && 0 <= i < level
      requires 0 <= from < |nodes| && nodes[from] == start && start.height > i
      requires AllUnder(nodes, from, e, inclusive)
      ensures from <= traversed < |nodes| && nodes[traversed] == x && x.height > i
      ensures AllUnder(nodes, traversed, e, inclusive) && Stopped(nodes, i, traversed, traversed, e, inclusive)
    {
      x, traversed := start, from;
      assert RowLink(table[traversed], nodes, i, traversed);
      while x.levels[i].forward != null && Under(x.levels[i].forward.elem, e, inclusive)
        invariant from <= traversed < |nodes| && nodes[traversed] == x && x.height > i
        invariant i < |x.levels| && x.levels[i] == LinkSpec(nodes, i, traversed)
        invariant AllUnder(nodes, traversed, e, inclusive)
        decreases |nodes| - traversed
      {
        AllBefore(Next(nodes, i, traversed), e, inclusive);
        traversed := traversed + x.levels[i].span;
        x := x.levels[i].forward;
        assert RowLink(table[traversed], nodes, i, traversed);
      }
      if x.levels[i].forward != null { NoneAfter(Next(nodes, i, traversed), e, inclusive); }
    }

    /** The descent shared by insert and delete: the last node before `e` on every level. */
    method Search(e: Element) returns (update: seq<Node>, rank: seq<int>)
      requires Spine(nodes, level) && nodes[0] == header && Holds(nodes, table) && Links(nodes, table, 0, level)
      ensures |rank| == level && Path(nodes, update, rank, rank[0], level)
      ensures AllUnder(nodes, rank[0], e, false) && NoneUnder(nodes, rank[0] + 1, e, false)
    {
      var x, traversed := header, 0;
      update, rank := seq(level, _ => x), seq(level, _ => 0);
      var i := level - 1;
      while i >= 0
        invariant -1 <= i < level
        invariant |update| == |rank| == level
        invariant 0 <= traversed < |nodes| && nodes[traversed] == x && x.height > i
        invariant AllUnder(nodes, traversed, e, false)
        invariant forall j :: i < j < level ==>
          Stopped(nodes, j, rank[j], traversed, e, false) && nodes[rank[j]] == update[j]
        invariant i < level - 1 ==> rank[i + 1] == traversed
      {
        ghost var prev := traversed;
        x, traversed := WalkLevel(x, traversed, i, e, false);
        forall j | i < j < level
          ensures Stopped(nodes, j, rank[j], traversed, e, false)
        {
          assert Stopped(nodes, j, rank[j], prev, e, false);
        }
        update, rank := update[i := x], rank[i := traversed];
        i := i - 1;
      }
      assert Stopped(nodes, 0, rank[0], traversed, e, false);
      NextIs(nodes, 0, traversed, traversed + 1);
    }

    /** Insert a new element as a node of height `h`; any height gives the same sequence. */
    method Insert(e: Element, h: int) returns (x: Node, ghost r: int)
      requires Valid() && 1 <= h <= MAX_LEVEL
      requires forall p :: 1 <= p < |nodes| ==> nodes[p].elem != e
      modifies this, nodes
      ensures Valid() && fresh(x) && x.elem == e && x.height == h
      ensures r >= 0 && Inserted(old(nodes), r, x, nodes)
      ensures level == Higher(h, old(level))
      ensures header == old(header)
    {
      var update, rank := Search(e);
      if h > level {
        update, rank := Raise(h, update, rank);
      }
      x, r := Place(e, h, update, rank);
    }

    /** Insert along a finished search path. */
    method Place(e: Element, h: int, update: seq<Node>, rank: seq<int>) returns (x: Node, ghost r: int)
      requires Valid() && 1 <= h <= level
      requires |rank| == level && Path(nodes, update, rank, rank[0], level)
      requires AllUnder(nodes, rank[0], e, false) && NoneUnder(nodes, rank[0] + 1, e, false)
      requires forall p :: 1 <= p < |nodes| ==> nodes[p].elem != e
      modifies this`tail, this`length, this`level, this`nodes, this`table, nodes
      ensures Valid() && level == old(level) && fresh(x) && x.elem == e && x.height == h
      ensures r >= 0 && Inserted(old(nodes), r, x, nodes)
    {
      r := rank[0];
      ghost var ns, ns', t := nodes, [], [];
      x, ns', t := NewLinkedNode(e, h, update, rank, level, nodes, r, table);
      Attach(x, update[0], ns, r, ns');
      Install(ns', t, level, length + 1);
    }

    /** Close an operation: all that is left is to account for the change. */
    method Install(ghost ns: seq<Node>, ghost t: Table, level: int, length: int)
      requires Spine(ns, level) && ns[0] == header && header.elem.member == []
      requires Holds(ns, t) && LevelsOk(ns, t, level) && ChainOk(ns, tail)
      requires length == |ns| - 1
      modifies this`length, this`level, this`nodes, this`table
      ensures Valid() && nodes == ns && this.level == level
    {
      this.level, this.length := level, length;
      nodes, table := ns, t;
    }

    /** Delete the node holding exactly `e`, if there is one. */
    method Delete(e: Element) returns (found: bool, ghost r: int)
      requires Valid()
      modifies this, nodes
      ensures Valid() && header == old(header) && level <= old(level)
      ensures found <==> exists p :: 1 <= p < |old(nodes)| && old(nodes)[p].elem == e
      ensures !found ==> nodes == old(nodes) && level == old(level)
      ensures found ==> 0 <= r < |old(nodes)| - 1 && old(nodes)[r + 1].elem == e
                        && Inserted(nodes, r, old(nodes)[r + 1], old(nodes))
    {
      var update, rank := Search(e);
      r := rank[0];
      BottomLink(nodes, table, r, level);
      var x := update[0].levels[0].forward;
      found := x != null && x.elem == e;
      Pinpoint(nodes, r, e);
      if found { DeleteNode(x, update, rank, r); }
    }

    method DeleteNode(x: Node, update: seq<Node>, ghost rank: seq<int>, ghost r: nat)
      requires Valid() && r + 1 < |nodes| && x == nodes[r + 1]
      requires Path(nodes, update, rank, r, level)
      modifies this, nodes
      ensures Valid() && header == old(header) && level <= old(level)
      ensures Inserted(nodes, r, x, old(nodes))
    {
      ghost var ns', ns, t := nodes, [], [];
      ns, t := UnlinkNode(x, update, rank, level, ns', r, table);
      Detach(x, ns, r, ns');
      var live := Shrink(header, level, ns, t);
      Install(ns, t, live, length - 1);
    }

    /** Take the node out of the backward chain. */
    method Detach(x: Node, ghost ns: seq<Node>, ghost r: nat, ghost ns': seq<Node>)
      requires Inserted(ns, r, x, ns') && Distinct(ns')
      requires |x.levels| > 0 && x.levels[0].forward == Successor(ns', r + 1)
      requires ChainOk(ns', tail)
      modifies this`tail, ns'`backward
      ensures ChainOk(ns, tail)
    {
      if x.levels[0].forward != null {
        x.levels[0].forward.backward := x.backward;
      } else {
        tail := x.backward;
      }
      assert forall p :: r < p < |ns| ==> ns[p] == ns'[p + 1];
    }

    /** The one position the rank walk mistakes for the header. */
    ghost predicate RankMissed(p: int, member: Member)
      requires Spine(nodes, level)
      reads this
    {
      member == [] && p < Next(nodes, level - 1, 0)
    }

    /** The 1-based rank of `e`, or 0. The header carries the empty member, so the empty
        member is missed when it comes before the first node of the top level. */
    method GetRank(e: Element) returns (rank: int)
      requires Valid()
      requires forall p :: 1 <= p < |nodes| && nodes[p].elem.member == e.member ==> nodes[p].elem == e
      ensures 0 <= rank < |nodes| && (rank > 0 ==> nodes[rank].elem == e)
      ensures rank == 0 <==> forall p :: 1 <= p < |nodes| && nodes[p].elem == e ==> RankMissed(p, e.member)
    {
      hide ChainOk;
      rank := 0;
      var x := header;
      var i := level - 1;
      while i >= 0
        invariant -1 <= i < level
        invariant 0 <= rank < |nodes| && nodes[rank] == x && x.height > i
        invariant AllUnder(nodes, rank, e, true)
        invariant i < level - 1 ==> x.elem.member != e.member
        invariant i < level - 1 ==> Stopped(nodes, i + 1, rank, rank, e, true)
        invariant i < level - 1 && e.member == [] ==> rank >= Next(nodes, level - 1, 0)
      {
        x, rank := WalkLevel(x, rank, i, e, true);
        if x.elem.member == e.member {
          return;
        }
        i := i - 1;
      }
      NextIs(nodes, 0, rank, rank + 1);
      NotOnPath(nodes, rank, e);
      rank := 0;
    }

    /** Walk one level as far as the spans stay within `rank`. */
    method WalkSpans(start: Node, from: int, i: int, rank: int) returns (x: Node, traversed: int)
      requires Holds(nodes, table) && Links(nodes, table, 0, level) && 0 <= i < level
      requires 0 <= from < |nodes| && nodes[from] == start && start.height > i && from <= rank
      ensures from <= traversed < |nodes| && nodes[traversed] == x && x.height > i && traversed <= rank
      ensures rank < Next(nodes, i, traversed) || Next(nodes, i, traversed) == |nodes|
    {
      x, traversed := start, from;
      assert RowLink(table[traversed], nodes, i, traversed);
      while x.levels[i].forward != null && traversed + x.levels[i].span <= rank
        invariant from <= traversed < |nodes| && nodes[traversed] == x && x.height > i
        invariant i < |x.levels| && x.levels[i] == LinkSpec(nodes, i, traversed)
        invariant traversed <= rank
        decreases |nodes| - traversed
      {
        traversed := traversed + x.levels[i].span;
        x := x.levels[i].forward;
        assert RowLink(table[traversed], nodes, i, traversed);
      }
    }

    /** The node at a 1-based rank; rank 0 is the header. */
    method GetElementByRank(rank: int) returns (x: Node?)
      requires Valid() && rank >= 0
      ensures x == if rank < |nodes| then nodes[rank] else null
    {
      hide ChainOk, Holds, Links, Distinct, NodesSorted;
      var traversed := 0;
      var y := header;
      var i := level - 1;
      while i >= 0
        invariant -1 <= i < level
        invariant 0 <= traversed < |nodes| && nodes[traversed] == y && y.height > i
        invariant traversed <= rank
        invariant i < level - 1 ==> traversed < rank
        invariant i == -1 ==> rank < Next(nodes, 0, traversed) || Next(nodes, 0, traversed) == |nodes|
      {
        y, traversed := WalkSpans(y, traversed, i, rank);
        if traversed == rank { return y; }
        i := i - 1;
      }
      NextIs(nodes, 0, traversed, traversed + 1);
      return null;
    }

    /** What the outside may know of a valid list. */
    lemma Facts()
      requires Valid()
      ensures |nodes| > 0 && length == |nodes| - 1 && Sorted(ElementsOf(nodes))
    {
    }

    /** Collect `count` elements along the bottom level. */
    method Forward(start: Node?, ghost p: int, count: int) returns (result: seq<Element>)
      requires Valid() && 1 <= p < |nodes| && start == nodes[p] && 0 <= count <= |nodes| - p
      ensures result == ElementsOf(nodes)[p - 1..p - 1 + count]
    {
      hide Spine, LevelsOk, ChainOk;
      result := [];
      var node, left := start, count;
      while node != null && left > 0
        invariant 0 <= left <= count && |result| == count - left
        invariant result == ElementsOf(nodes)[p - 1..p - 1 + |result|]
        invariant node == Successor(nodes, p - 1 + |result|)
        decreases left
      {
        BottomLink(nodes, table, p + |result|, level);
        result := result + [node.elem];
        node := node.levels[0].forward;
        left := left - 1;
      }
    }

    /** Collect `count` elements along the backward links. */
    method Backward(start: Node?, ghost p: int, count: int) returns (result: seq<Element>)
      requires Valid() && 1 <= p < |nodes| && start == nodes[p] && 0 <= count <= p
      ensures |result| == count
      ensures forall k :: 0 <= k < count ==> result[k] == ElementsOf(nodes)[p - 1 - k]
    {
      hide Spine, LevelsOk;
      result := [];
      var node, left := start, count;
      while node != null && left > 0
        invariant 0 <= left <= count && |result| == count - left
        invariant forall k :: 0 <= k < |result| ==> result[k] == ElementsOf(nodes)[p - 1 - k]
        invariant node == if p - |result| >= 1 then nodes[p - |result|] else null
        decreases left
      {
        result := result + [node.elem];
        node := node.backward;
        left := left - 1;
      }
    }

    /** Open the levels a taller node needs and extend the search path to them. */
    method Raise(h: int, update: seq<Node>, rank: seq<int>) returns (update': seq<Node>, rank': seq<int>)
      requires Valid() && level < h <= MAX_LEVEL
      requires |rank| == level && Path(nodes, update, rank, rank[0], level)
      modifies this`level, this`table, header`levels
      ensures Valid() && level == h
      ensures |rank'| == h && rank'[0] == rank[0] && Path(nodes, update', rank', rank[0], h)
    {
      var top := header;
      update' := update + seq(h - level, _ => top);
      rank' := rank + seq(h - level, _ => 0);
      PathRaised(nodes, update', rank', rank[0], level, h);
      OpenLevels(header, level, h, length);
      ghost var t' := table[0 := header.levels];
      LinksRaised(nodes, table, t', level, h);
      level, table := h, t';
    }

    /** Thread the new node into the backward chain. */
    method Attach(x: Node, prev: Node, ghost ns: seq<Node>, ghost r: nat, ghost ns': seq<Node>)
      requires Inserted(ns, r, x, ns') && Distinct(ns') && ns'[0] == header && prev == ns[r]
      requires |x.levels| > 0 && x.levels[0].forward == Successor(ns', r + 1)
      requires ChainOk(ns, tail) && x.backward == null
      modifies this`tail, ns'`backward
      ensures ChainOk(ns', tail)
    {
      if prev != header { x.backward := prev; }
      if x.levels[0].forward != null {
        x.levels[0].forward.backward := x;
      } else {
        tail := x;
      }
    }
  }

  lemma RemovedAt(ns': seq<Node>, r: nat) returns (ns: seq<Node>)
    requires r + 1 < |ns'|
    ensures Inserted(ns, r, ns'[r + 1], ns')
  {
    ns := ns'[..r + 1] + ns'[r + 2..];
  }

  lemma ShorterNodes(ns: seq<Node>, r: nat, x: Node, ns': seq<Node>)
    requires Inserted(ns, r, x, ns')
    ensures forall p :: 0 <= p < |ns| ==> ns[p] in ns'
  {
    forall p | 0 <= p < |ns|
      ensures ns[p] in ns'
    {
      assert ns[p] == ns'[Shift(r, p)];
    }
  }

  lemma ElementsInserted(ns: seq<Node>, r: nat, x: Node, ns': seq<Node>)
    requires Inserted(ns, r, x, ns')
    ensures ElementsOf(ns') == ElementsOf(ns)[..r] + [x.elem] + ElementsOf(ns)[r..]
  {
  }

  /** A finished inclusive walk that did not end on `e` proves it absent. */
  lemma NotOnPath(ns: seq<Node>, r: int, e: Element)
    requires NodesSorted(ns) && 0 <= r < |ns| && AllUnder(ns, r, e, true) && NoneUnder(ns, r + 1, e, true)
    requires ns[r].elem != e
    ensures forall p :: 1 <= p < |ns| ==> ns[p].elem != e
  {
    forall p | 1 <= p < |ns|
      ensures ns[p].elem != e
    {
      if p < r { LessAsymmetric(ns[p].elem, ns[r].elem); }
    }
  }

  /** The element, if present, is right after the gap. */
  lemma Pinpoint(ns: seq<Node>, r: int, e: Element)
    requires NodesSorted(ns) && 0 <= r < |ns| && AllUnder(ns, r, e, false) && NoneUnder(ns, r + 1, e, false)
    ensures (exists p :: 1 <= p < |ns| && ns[p].elem == e) <==> r + 1 < |ns| && ns[r + 1].elem == e
  {
    if r + 1 < |ns| { assert !Less(ns[r + 1].elem, e); }
    forall p | 1 <= p < |ns| && ns[p].elem == e
      ensures p == r + 1
    {
      if p <= r { LessAsymmetric(ns[p].elem, e); }
    }
  }

  /** Midway through deletion: the levels below `i` link the shorter list, the rest the longer. */
  ghost predicate HalfUnlinked(ns: seq<Node>, r: nat, ns': seq<Node>, t: Table, i: int, top: int) {
    && Shape(ns', t) && DeadLevelsEmpty(t, top)
    && LinksWithout(ns, r, t, 0, i) && Links(ns', t, i, top)
  }

  /** Take a node off every level. */
  method UnlinkNode(x: Node, update: seq<Node>, ghost rank: seq<int>, level: int,
                    ghost ns': seq<Node>, ghost r: nat, ghost t: Table)
    returns (ghost ns: seq<Node>, ghost t': Table)
    requires Spine(ns', level) && Holds(ns', t) && LevelsOk(ns', t, level)
    requires r + 1 < |ns'| && x == ns'[r + 1] && Path(ns', update, rank, r, level)
    modifies ns'`levels
    ensures Inserted(ns, r, x, ns') && Spine(ns, level)
    ensures Holds(ns, t') && LevelsOk(ns, t', level)
    ensures |x.levels| > 0 && x.levels[0].forward == Successor(ns', r + 1)
  {
    ns := RemovedAt(ns', r);
    SpineRemoved(ns, r, x, ns', level);
    BottomLink(ns', t, r + 1, level);
    t' := Unlink(x, update, rank, level, ns, r, ns', t);
    t' := RowsWithout(ns, r, x, ns', t', level);
  }

  /** The unlinking loop of deleteNode. */
  method Unlink(x: Node, update: seq<Node>, ghost rank: seq<int>, level: int,
                ghost ns: seq<Node>, ghost r: nat, ghost ns': seq<Node>, ghost t: Table)
    returns (ghost t': Table)
    requires Inserted(ns, r, x, ns') && Distinct(ns')
    requires Path(ns', update, rank, r, level)
    requires Holds(ns', t) && LevelsOk(ns', t, level)
    modifies ns'`levels
    ensures Holds(ns', t') && HalfUnlinked(ns, r, ns', t', level, level)
    ensures x.levels == old(x.levels)
  {
    t' := t;
    var i := 0;
    while i < level
      invariant 0 <= i
      invariant level >= 0 ==> i <= level
      invariant Holds(ns', t') && HalfUnlinked(ns, r, ns', t', i, level)
      invariant x.levels == old(x.levels)
    {
      BeforeShorter(ns, r, x, ns', i, rank[i]);
      assert ns'[rank[i]] == update[i] && ns'[r + 1] == x;
      t' := UnlinkLevel(x, update[i], i, rank[i], ns, r, ns', t', level);
      i := i + 1;
    }
  }

  method UnlinkLevel(x: Node, u: Node, i: nat, ghost p: nat,
                     ghost ns: seq<Node>, ghost r: nat, ghost ns': seq<Node>, ghost t: Table, ghost top: nat)
    returns (ghost t': Table)
    requires Inserted(ns, r, x, ns') && Distinct(ns')
    requires Before(ns, i, p, r) && ns'[p] == u && i < top
    requires Holds(ns', t) && HalfUnlinked(ns, r, ns', t, i, top)
    modifies u`levels
    ensures Holds(ns', t') && HalfUnlinked(ns, r, ns', t', i + 1, top)
    ensures u != x
  {
    t' := Unspliced(ns, r, x, ns', t, i, p, top);
    assert ns'[r + 1] == x;
    if u.levels[i].forward == x {
      u.levels := u.levels[i := Level(x.levels[i].forward, u.levels[i].span + x.levels[i].span - 1)];
    } else {
      u.levels := u.levels[i := Level(u.levels[i].forward, u.levels[i].span - 1)];
    }
  }

  lemma Unspliced(ns: seq<Node>, r: nat, x: Node, ns': seq<Node>, t: Table, i: nat, u: nat, top: nat) returns (t': Table)
    requires Inserted(ns, r, x, ns') && Distinct(ns') && Before(ns, i, u, r) && i < top
    requires HalfUnlinked(ns, r, ns', t, i, top)
    ensures i < |t[u]| && (t[u][i].forward == x ==> i < |t[r + 1]|)
    ensures |t'| == |t| && forall p :: 0 <= p < |t| && p != u ==> t'[p] == t[p]
    ensures t'[u] == if t[u][i].forward == x
                     then t[u][i := Level(t[r + 1][i].forward, t[u][i].span + t[r + 1][i].span - 1)]
                     else t[u][i := Level(t[u][i].forward, t[u][i].span - 1)]
    ensures HalfUnlinked(ns, r, ns', t', i + 1, top)
  {
    assert ns'[u] == ns[u] && RowLink(t[u], ns', i, u);
    LinkAfterInsert(ns, r, x, ns', i, u, u);
    if x.height > i {
      assert ns'[r + 1] == x && RowLink(t[r + 1], ns', i, r + 1);
      NewLinkAfterInsert(ns, r, x, ns', i, u);
    } else {
      NotLinked(ns, r, x, ns', i, u);
    }
    LevelUnspliced(ns, r, x, ns', t, i, u, top);
    hide HalfUnlinked, Inserted;
    t' := t[u := t[u][i := LinkSpec(ns, i, u)]];
  }

  /** The level below is done once its one link is. */
  lemma LevelUnspliced(ns: seq<Node>, r: nat, x: Node, ns': seq<Node>, t: Table, i: nat, u: nat, top: nat)
    requires Inserted(ns, r, x, ns') && Distinct(ns') && Before(ns, i, u, r) && i < top
    requires HalfUnlinked(ns, r, ns', t, i, top) && i < |t[u]|
    ensures HalfUnlinked(ns, r, ns', t[u := t[u][i := LinkSpec(ns, i, u)]], i + 1, top)
  {
    var t' := t[u := t[u][i := LinkSpec(ns, i, u)]];
    assert forall p :: 0 <= p < |t| ==> SameRowOffLevel(t[p], t'[p], i);
    OtherLevelsKeepWithout(ns, r, t, t', i, 0, i);
    OtherLevelsKeep(ns', t, t', i, i + 1, top);
    LevelRemoved(ns, r, x, ns', t, t', i, u);
  }

  lemma NotLinked(ns: seq<Node>, r: nat, x: Node, ns': seq<Node>, i: nat, u: nat)
    requires Inserted(ns, r, x, ns') && Distinct(ns') && u < |ns|
    ensures LinkSpec(ns, i, u).forward != x
  {
    var q := Next(ns, i, u);
    if q < |ns| { assert ns[q] == ns'[Shift(r, q)]; }
  }

  lemma BeforeShorter(ns: seq<Node>, r: nat, x: Node, ns': seq<Node>, i: nat, u: nat)
    requires Inserted(ns, r, x, ns') && Before(ns', i, u, r)
    ensures Before(ns, i, u, r)
  {
    if Next(ns, i, u) <= r { assert ns'[Next(ns, i, u)] == ns[Next(ns, i, u)]; }
  }

  lemma RowsWithout(ns: seq<Node>, r: nat, x: Node, ns': seq<Node>, t: Table, level: int) returns (t': Table)
    requires Inserted(ns, r, x, ns') && HalfUnlinked(ns, r, ns', t, level, level) && Holds(ns', t)
    ensures Holds(ns, t') && LevelsOk(ns, t', level)
  {
    t' := t[..r + 1] + t[r + 2..];
    forall p | 0 <= p < |ns|
      ensures t'[p] == t[Shift(r, p)] && ns[p] == ns'[Shift(r, p)]
    {
    }
    forall j: nat, p | 0 <= p < |ns| && j < ns[p].height && j < level
      ensures RowLink(t'[p], ns, j, p)
    {
      assert RowLink(t[Shift(r, p)], ns, j, p);
    }
  }

  /** Drop the levels that no node reaches any more. */
  method Shrink(header: Node, level: int, ghost ns: seq<Node>, ghost t: Table) returns (level': int)
    requires Spine(ns, level) && ns[0] == header && Holds(ns, t) && LevelsOk(ns, t, level)
    ensures level' <= level && Spine(ns, level') && LevelsOk(ns, t, level')
  {
    level' := level;
    while level' > 1 && header.levels[level' - 1].forward == null
      invariant level' <= level && Spine(ns, level') && LevelsOk(ns, t, level')
    {
      TopUnused(ns, t, level');
      level' := level' - 1;
    }
  }

  lemma TopUnused(ns: seq<Node>, t: Table, level: int)
    requires Spine(ns, level) && LevelsOk(ns, t, level) && level > 1 && t[0][level - 1].forward == null
    ensures Spine(ns, level - 1) && LevelsOk(ns, t, level - 1)
  {
    assert RowLink(t[0], ns, level - 1, 0);
    assert Next(ns, level - 1, 0) == |ns|;
  }

  /** Make the node and link it on every level. */
  method NewLinkedNode(e: Element, h: int, update: seq<Node>, rank: seq<int>, level: int,
                       ghost ns: seq<Node>, ghost r: nat, ghost t: Table)
    returns (x: Node, ghost ns': seq<Node>, ghost t': Table)
    requires Spine(ns, level) && Holds(ns, t) && LevelsOk(ns, t, level) && 1 <= h <= level
    requires Path(ns, update, rank, r, level) && rank[0] == r
    requires AllUnder(ns, r, e, false) && NoneUnder(ns, r + 1, e, false)
    requires forall p :: 1 <= p < |ns| ==> ns[p].elem != e
    modifies ns`levels
    ensures fresh(x) && x.elem == e && x.height == h && x.backward == null
    ensures Inserted(ns, r, x, ns') && Spine(ns', level)
    ensures Holds(ns', t') && LevelsOk(ns', t', level)
    ensures |x.levels| > 0 && x.levels[0].forward == Successor(ns', r + 1)
  {
    hide LevelsOk, HalfLinked, AllUnder, NoneUnder;
    x := new Node(h, e);
    ns' := InsertedAfter(ns, r, x);
    SpineInserted(ns, r, x, ns', level);
    t' := BeginRelink(ns, r, x, ns', t, x.levels, level);
    HoldsLonger(ns, r, x, ns', t, t');
    t' := Relink(x, update, rank, level, ns, r, ns', t');
    BottomLink(ns', t', r + 1, level);
  }

  /** The relinking loops of insert: levels the node reaches, then levels above it. */
  method Relink(x: Node, update: seq<Node>, rank: seq<int>, level: int,
                ghost ns: seq<Node>, ghost r: nat, ghost ns': seq<Node>, ghost t: Table)
    returns (ghost t': Table)
    requires Inserted(ns, r, x, ns') && Distinct(ns') && x.height <= level
    requires Path(ns, update, rank, r, level) && 0 < level && rank[0] == r
    requires Holds(ns', t) && HalfLinked(ns, r, ns', t, 0, level)
    modifies ns'`levels
    ensures Holds(ns', t') && LevelsOk(ns', t', level)
  {
    t' := t;
    var i := 0;
    while i < x.height
      invariant 0 <= i <= x.height
      invariant Holds(ns', t') && HalfLinked(ns, r, ns', t', i, level)
    {
      assert ns'[rank[i]] == update[i] && ns'[r + 1] == x;
      t' := SpliceLevel(x, update[i], i, rank[0] - rank[i], ns, r, ns', t', level);
      i := i + 1;
    }
    while i < level
      invariant x.height <= i <= level
      invariant Holds(ns', t') && HalfLinked(ns, r, ns', t', i, level)
    {
      assert ns'[rank[i]] == update[i];
      t' := StretchLevel(update[i], i, x, rank[i], ns, r, ns', t', level);
      i := i + 1;
    }
  }

  lemma HoldsLonger(ns: seq<Node>, r: nat, x: Node, ns': seq<Node>, t: Table, t': Table)
    requires Inserted(ns, r, x, ns') && Holds(ns, t)
    requires |t'| == |ns'| && t'[r + 1] == x.levels
    requires forall p :: 0 <= p < |ns| ==> t'[Shift(r, p)] == t[p]
    ensures Holds(ns', t')
  {
    forall p | 0 <= p < |ns'|
      ensures ns'[p].levels == t'[p]
    {
      if p != r + 1 {
        var q := if p <= r then p else p - 1;
        assert Shift(r, q) == p && ns'[p] == ns[q];
      }
    }
  }

  lemma BeginRelink(ns: seq<Node>, r: nat, x: Node, ns': seq<Node>, t: Table, row: seq<Level>, level: int)
    returns (t': Table)
    requires Inserted(ns, r, x, ns') && LevelsOk(ns, t, level) && |row| == x.height
    ensures |t'| == |ns'| && t'[r + 1] == row
    ensures forall p :: 0 <= p < |ns| ==> t'[Shift(r, p)] == t[p]
    ensures HalfLinked(ns, r, ns', t', 0, level)
  {
    t' := t[..r + 1] + [row] + t[r + 1..];
    forall j: nat, p | 0 <= p < |ns| && j < ns[p].height && j < level
      ensures RowLink(t'[Shift(r, p)], ns, j, p)
    {
      assert RowLink(t[p], ns, j, p);
    }
    forall p | 0 <= p < |ns'|
      ensures |t'[p]| == ns'[p].height
    {
      if p != r + 1 {
        var q := if p <= r then p else p - 1;
        assert ns'[p] == ns[q] && t'[p] == t[q];
      }
    }
  }

  lemma PathRaised(ns: seq<Node>, update: seq<Node>, rank: seq<int>, r: int, level: int, h: int)
    requires Spine(ns, level) && level <= h <= MAX_LEVEL && |update| == |rank| == h
    requires Path(ns, update[..level], rank[..level], r, level)
    requires forall i :: level <= i < h ==> rank[i] == 0 && update[i] == ns[0]
    ensures Path(ns, update, rank, r, h)
  {
    forall i | 0 <= i < h
      ensures 0 <= rank[i] && Before(ns, i, rank[i], r) && ns[rank[i]] == update[i]
    {
      if i < level {
        assert update[i] == update[..level][i] && rank[i] == rank[..level][i];
      } else {
        NextIs(ns, i, 0, |ns|);
      }
    }
  }
}
