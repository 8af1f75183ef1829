/** The large sorted set: a score map beside a skip list. */
module ZSet {
  import opened Base
  import opened SortedElements
  import opened Windows
  import SL = SkipList

  /** A node's height from the number of successful draws before the first failure. */
  function RandomLevel(draws: nat): (h: int)
    ensures 1 <= h <= SL.MAX_LEVEL
  {
    if 1 + draws < SL.MAX_LEVEL then 1 + draws else SL.MAX_LEVEL
  }

  lemma Listed(ns: seq<SL.Node>, r: nat, x: SL.Node, ns': seq<SL.Node>, m: map<Member, Score>)
    requires SL.Inserted(ns, r, x, ns') && Sorted(SL.ElementsOf(ns'))
    requires Enumerates(SL.ElementsOf(ns), m) && x.elem.member !in m
    ensures Enumerates(SL.ElementsOf(ns'), m[x.elem.member := x.elem.score])
  {
    hide Enumerates, Less;
    SL.ElementsInserted(ns, r, x, ns');
    EnumeratesInserted(SL.ElementsOf(ns), r, x.elem, m);
  }

  lemma Unlisted(ns: seq<SL.Node>, r: nat, x: SL.Node, ns': seq<SL.Node>, m: map<Member, Score>)
    requires SL.Inserted(ns, r, x, ns') && Enumerates(SL.ElementsOf(ns'), m)
    ensures Enumerates(SL.ElementsOf(ns), m - {x.elem.member})
    ensures forall p :: 0 <= p < |ns| ==> ns[p] in ns'
  {
    hide Enumerates, Less;
    SL.ElementsInserted(ns, r, x, ns');
    SL.ShorterNodes(ns, r, x, ns');
    EnumeratesRemoved(SL.ElementsOf(ns'), r, m);
    assert SL.ElementsOf(ns')[..r] + SL.ElementsOf(ns')[r + 1..] == SL.ElementsOf(ns);
  }

  /** One node more: it holds `e` and is `h` high. */
  ghost predicate Entered(ns: seq<SL.Node>, ns': seq<SL.Node>, e: Element, h: int) {
    exists p :: 1 <= p < |ns'| && ns'[p].elem == e && ns'[p].height == h && SL.Inserted(ns, p - 1, ns'[p], ns')
  }

  class ZSet {
    var dict: map<Member, Score>
    var sl: SL.SkipList

    ghost predicate Valid()
      reads this, sl, sl.nodes
    {
      sl.Valid() && Enumerates(Elements(), dict)
    }

    ghost function Elements(): seq<Element>
      reads this, sl
    {
      if |sl.nodes| > 0 then SL.ElementsOf(sl.nodes) else []
    }

    constructor ()
      ensures Valid() && fresh(sl) && fresh(sl.nodes) && dict == map[] && |sl.nodes| == sl.level == 1
    {
      dict := map[];
      sl := new SL.SkipList();
    }

    lemma Lists()
      requires Valid()
      ensures Enumerates(Elements(), dict)
    {
    }

    method Len() returns (n: int)
      requires Valid()
      ensures n == |Elements()| == |dict|
    {
      hide SL.SkipList.Valid, Enumerates;
      sl.Facts();
      n := sl.length;
      EnumerationSize(Elements(), dict);
    }

    /** Insert or rescore a member; `draws` is what the random level was drawn as. */
    method Add(member: Member, score: Score, draws: nat) returns (added: bool, updated: bool)
      requires Valid()
      modifies this`dict, sl, sl.nodes
      ensures Valid() && forall p :: 0 <= p < |sl.nodes| ==> sl.nodes[p] in old(sl.nodes) || fresh(sl.nodes[p])
      ensures dict == old(dict)[member := score]
      ensures added == (member !in old(dict))
      ensures updated == (member in old(dict) && old(dict)[member] != score)
      ensures added ==> Entered(old(sl.nodes), sl.nodes, Element(member, score), RandomLevel(draws))
                        && sl.level == SL.Higher(RandomLevel(draws), old(sl.level))
    {
      hide SL.SkipList.Valid, Enumerates, Entered, RandomLevel;
      added, updated := member !in dict, member in dict && dict[member] != score;
      if updated {
        Drop(member);
      }
      if added || updated {
        Put(member, score, draws);
      }
    }

    method Put(member: Member, score: Score, draws: nat)
      requires Valid() && member !in dict
      modifies this`dict, sl, sl.nodes
      ensures Valid() && dict == old(dict)[member := score]
      ensures forall p :: 0 <= p < |sl.nodes| ==> sl.nodes[p] in old(sl.nodes) || fresh(sl.nodes[p])
      ensures Entered(old(sl.nodes), sl.nodes, Element(member, score), RandomLevel(draws))
      ensures sl.level == SL.Higher(RandomLevel(draws), old(sl.level))
    {
      hide SL.SkipList.Valid, Enumerates, Less;
      sl.Facts();
      ghost var ns := sl.nodes;
      NotListed(Elements(), dict, member);
      forall p | 1 <= p < |ns|
        ensures ns[p].elem != Element(member, score)
      {
        assert ns[p].elem == Elements()[p - 1];
      }
      var x, r := sl.Insert(Element(member, score), RandomLevel(draws));
      sl.Facts();
      Listed(ns, r, x, sl.nodes, dict);
      dict := dict[member := score];
    }

    method Drop(member: Member)
      requires Valid() && member in dict
      modifies this`dict, sl, sl.nodes
      ensures Valid() && dict == old(dict) - {member}
      ensures forall p :: 0 <= p < |sl.nodes| ==> sl.nodes[p] in old(sl.nodes)
    {
      hide SL.SkipList.Valid, Enumerates, Less;
      sl.Facts();
      ghost var ns := sl.nodes;
      ghost var k := Position(Elements(), dict, member);
      assert ns[k + 1].elem == Element(member, dict[member]);
      var found, r := sl.Delete(Element(member, dict[member]));
      sl.Facts();
      Unlisted(sl.nodes, r, ns[r + 1], ns, dict);
      dict := dict - {member};
    }

    method Remove(member: Member) returns (removed: bool)
      requires Valid()
      modifies this`dict, sl, sl.nodes
      ensures Valid() && forall p :: 0 <= p < |sl.nodes| ==> sl.nodes[p] in old(sl.nodes)
      ensures dict == old(dict) - {member}
      ensures removed == (member in old(dict))
    {
      hide SL.SkipList.Valid, Enumerates;
      removed := member in dict;
      if removed { Drop(member); }
    }

    method GetScore(member: Member) returns (score: Option<Score>)
      requires Valid()
      ensures score == if member in dict then Some(dict[member]) else None
      ensures score.Some? <==> exists k :: 0 <= k < |Elements()| && Elements()[k].member == member
      ensures score.Some? ==> Element(member, score.value) in Elements()
    {
      hide SL.SkipList.Valid, Enumerates, Less;
      if member in dict {
        ghost var k := Position(Elements(), dict, member);
        score := Some(dict[member]);
      } else {
        NotListed(Elements(), dict, member);
        score := None;
      }
    }

    /** The empty member hides behind the header while it sits before the first top-level node. */
    ghost predicate Hidden(member: Member)
      reads this, sl, sl.nodes
    {
      member == [] && sl.Valid() && exists p :: 1 <= p < |sl.nodes| && sl.nodes[p].elem.member == [] && sl.RankMissed(p, [])
    }

    /** The one node that carries the member. */
    lemma Located(member: Member) returns (k: nat)
      requires Valid() && member in dict
      ensures sl.length == |Elements()| == |sl.nodes| - 1 && k < |Elements()|
      ensures forall p :: 1 <= p < |sl.nodes| ==> sl.nodes[p].elem == Elements()[p - 1]
      ensures sl.nodes[k + 1].elem == Element(member, dict[member])
      ensures forall p :: 1 <= p < |sl.nodes| && sl.nodes[p].elem.member == member ==> p == k + 1
    {
      hide SL.SkipList.Valid, Enumerates, Less;
      sl.Facts();
      k := Position(Elements(), dict, member);
    }

    method Rank(member: Member, reverse: bool) returns (rank: int, ok: bool)
      requires Valid()
      ensures ok <==> member in dict && !Hidden(member)
      ensures ok ==> 0 <= rank < |Elements()|
                     && Elements()[if reverse then |Elements()| - 1 - rank else rank].member == member
      ensures !ok ==> rank == -1
    {
      hide SL.SkipList.Valid, Enumerates, Less, SL.ElementsOf;
      if member !in dict { return -1, false; }
      var e := Element(member, dict[member]);
      ghost var k := Located(member);
      var r := sl.GetRank(e);
      if r == 0 { return -1, false; }
      rank, ok := if reverse then sl.length - r else r - 1, true;
    }

    method Range(start: int, stop: int, reverse: bool) returns (result: seq<Element>)
      requires Valid()
      ensures result == Window(Directed(Elements(), reverse), start, stop)
    {
      hide SL.SkipList.Valid, Enumerates, Window, Directed;
      DirectedElements(Elements(), reverse);
      sl.Facts();
      var length := sl.length;
      ghost var s := Directed(Elements(), reverse);
      result := [];
      var first := if start < 0 then length + start else start;
      var last := if stop < 0 then length + stop else stop;
      if first < 0 { first := 0; }
      WindowIs(s, start, stop, first, if last >= length then length - 1 else last);
      if length == 0 || first >= length || first > last { return; }
      if last >= length { last := length - 1; }
      result := Collect(first, last - first + 1, reverse);
    }

    method Collect(first: int, count: int, reverse: bool) returns (result: seq<Element>)
      requires Valid() && 0 <= first && 0 < count && first + count <= |Elements()|
      ensures |Directed(Elements(), reverse)| == |Elements()|
      ensures result == Directed(Elements(), reverse)[first..first + count]
    {
      hide SL.SkipList.Valid, Enumerates, Directed;
      DirectedElements(Elements(), reverse);
      sl.Facts();
      if !reverse {
        var node := sl.GetElementByRank(first + 1);
        result := sl.Forward(node, first + 1, count);
      } else {
        var node := sl.GetElementByRank(sl.length - first);
        result := sl.Backward(node, sl.length - first, count);
      }
      assert result == Directed(Elements(), reverse)[first..first + count];
    }
  }

  // ---------------------------------------------------------------------------
  // Whole runs.

  datatype Op = Add(member: Member, score: Score, draws: nat) | Remove(member: Member)

  function Apply(m: map<Member, Score>, op: Op): map<Member, Score> {
    match op
    case Add(x, score, _) => m[x := score]
    case Remove(x) => m - {x}
  }

  function Replay(ops: seq<Op>): map<Member, Score> {
    if ops == [] then map[] else Apply(Replay(ops[..|ops| - 1]), ops[|ops| - 1])
  }

  /** After any run, with any levels drawn, the structure lists exactly the replayed map in
      order: nothing that can be asked of it depends on the draws. */
  method Run(ops: seq<Op>) returns (z: ZSet)
    ensures fresh(z) && z.Valid() && z.dict == Replay(ops) && Enumerates(z.Elements(), Replay(ops))
  {
    hide ZSet.Valid;
    z := new ZSet();
    var i := 0;
    while i < |ops|
      invariant 0 <= i <= |ops|
      invariant fresh(z) && fresh(z.sl) && fresh(z.sl.nodes)
      invariant z.Valid() && z.dict == Replay(ops[..i])
    {
      assert ops[..i + 1][..i] == ops[..i];
      match ops[i] {
        case Add(x, score, draws) => var _, _ := z.Add(x, score, draws);
        case Remove(x) => var _ := z.Remove(x);
      }
      i := i + 1;
    }
    assert ops[..i] == ops;
    z.Lists();
  }

  /** Two members of one score, added in any order, are listed by their bytes. */
  method TieByBytes(x: Member, y: Member, score: Score, draws: nat, draws': nat) returns (listing: seq<Element>)
    requires x != y
    ensures listing == if Precedes(x, y) then [Element(x, score), Element(y, score)] else [Element(y, score), Element(x, score)]
  {
    hide ZSet.Valid, Enumerates, BytesLess;
    var z := new ZSet();
    var _, _ := z.Add(y, score, draws);
    var _, _ := z.Add(x, score, draws');
    listing := z.Range(0, -1, false);
    z.Lists();
    assert z.dict == map[y := score, x := score];
    TwoListed(z.Elements(), x, y, score);
    assert Window(z.Elements(), 0, -1) == z.Elements();
  }

  lemma TwoListed(s: seq<Element>, x: Member, y: Member, score: Score)
    requires x != y && Enumerates(s, map[y := score, x := score])
    ensures s == if Precedes(x, y) then [Element(x, score), Element(y, score)] else [Element(y, score), Element(x, score)]
  {
    var m := map[y := score, x := score];
    assert m.Keys == {x, y};
    EnumerationSize(s, m);
    BytesLessIff(x, y);
    BytesLessIff(y, x);
    BytesLessTotal(x, y);
    assert Element(x, m[x]) in s && Element(y, m[y]) in s && s[0] in s && s[1] in s;
    assert Less(s[0], s[1]);
    LessAsymmetric(s[0], s[1]);
  }

  lemma FirstOfTwo(ns: seq<SL.Node>, ns': seq<SL.Node>, ns'': seq<SL.Node>, e: Element, f: Element, h: int, k: int)
    requires |ns| == 1 && Entered(ns, ns', e, h) && Entered(ns', ns'', f, k)
    requires e.score < f.score && Sorted(SL.ElementsOf(ns''))
    ensures |ns''| == 3 && ns''[1].elem == e && ns''[1].height == h
  {
    var es := SL.ElementsOf(ns'');
    assert Less(es[0], es[1]);
    hide Less;
    LessAsymmetric(e, f);
  }

  /** The empty member placed before the only tall node has no rank, though it is there. */
  method EmptyMemberHidden() returns (z: ZSet, rank: int, ok: bool)
    ensures fresh(z) && z.Valid() && [] in z.dict && !ok && rank == -1
  {
    hide SL.SkipList.Valid, Enumerates, Entered, Less, Sorted, SL.ElementsOf;
    z := new ZSet();
    ghost var ns := z.sl.nodes;
    var _, _ := z.Add([], 0.0, 0);
    ghost var ns' := z.sl.nodes;
    var _, _ := z.Add([97], 1.0, 1);
    z.sl.Facts();
    FirstOfTwo(ns, ns', z.sl.nodes, Element([], 0.0), Element([97], 1.0), 1, 2);
    assert z.Hidden([]);
    rank, ok := z.Rank([], false);
  }
}
