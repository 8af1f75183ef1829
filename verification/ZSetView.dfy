/** A sorted set behind two encodings: a listpack of members and scores while small, a skip list after. */
module ZSetView {
  import opened Base
  import opened SortedElements
  import opened Windows
  import LP = Listpack
  import P = Pairs
  import SL = SkipList
  import Z = ZSet

  /** How a score is read from its text. */
  type Parse = Bytes -> Option<Score>

  /** The text a member's score is written as. Equal scores may have different texts, as 0 and -0 do. */
  type Spelling = map<Member, Bytes>

  ghost function TextOf(spelt: Spelling, member: Member): Bytes {
    if member in spelt then spelt[member] else []
  }

  /** A text that reads as the score; what a command writes for a score does. */
  ghost predicate Writable(parse: Parse, text: Bytes, score: Score) {
    parse(text) == Some(score) && |text| <= LP.MAX_LEN
  }

  ghost predicate AllWritable(parse: Parse, spelt: Spelling, list: seq<Element>) {
    forall k :: 0 <= k < |list| ==>
      var m := list[k].member;
      m in spelt && Writable(parse, TextOf(spelt, m), list[k].score) && |m| <= LP.MAX_LEN
  }

  ghost function Written(spelt: Spelling, list: seq<Element>): seq<P.Pair> {
    seq(|list|, k requires 0 <= k < |list| => P.Pair(list[k].member, TextOf(spelt, list[k].member)))
  }

  /** Member and score alternate. */
  ghost function Texts(spelt: Spelling, list: seq<Element>): (t: seq<Bytes>)
    ensures |t| == 2 * |list|
    ensures forall k :: 0 <= k < |list| ==> t[2 * k] == list[k].member && t[2 * k + 1] == TextOf(spelt, list[k].member)
  {
    P.Texts(Written(spelt, list))
  }

  lemma TextsRemoved(spelt: Spelling, list: seq<Element>, k: nat)
    requires k < |list|
    ensures Texts(spelt, list)[..2 * k] + Texts(spelt, list)[2 * k + 2..] == Texts(spelt, list[..k] + list[k + 1..])
  {
    hide P.Texts;
    P.TextsRemoved(Written(spelt, list), k);
    assert Written(spelt, list)[..k] + Written(spelt, list)[k + 1..] == Written(spelt, list[..k] + list[k + 1..]);
  }

  lemma TextsInserted(spelt: Spelling, list: seq<Element>, k: nat, e: Element, text: Bytes)
    requires k <= |list| && forall i :: 0 <= i < |list| ==> list[i].member != e.member
    ensures var t := Texts(spelt, list);
            var t1 := t[..2 * k] + [e.member] + t[2 * k..];
            t1[..2 * k + 1] + [text] + t1[2 * k + 1..] == Texts(spelt[e.member := text], list[..k] + [e] + list[k..])
  {
    hide P.Texts;
    var p := P.Pair(e.member, text);
    P.TextsInserted(Written(spelt, list), k, p);
    assert Written(spelt, list)[..k] + [p] + Written(spelt, list)[k..] == Written(spelt[e.member := text], list[..k] + [e] + list[k..]);
  }

  // ---------------------------------------------------------------------------
  // The listpack side.

  /** The listpack spells `list`, which lists `value` in order. */
  ghost predicate Spells(lp: LP.Listpack, parse: Parse, spelt: Spelling, list: seq<Element>, value: map<Member, Score>)
    reads lp
  {
    lp.Valid() && lp.elems == Texts(spelt, list) && Enumerates(list, value) && AllWritable(parse, spelt, list)
  }

  /** The position of a member's text, or -1. */
  method FindMember(lp: LP.Listpack, parse: Parse, ghost spelt: Spelling, ghost list: seq<Element>, ghost value: map<Member, Score>, member: Member)
      returns (i: int)
    requires Spells(lp, parse, spelt, list, value)
    ensures i == -1 <==> member !in value
    ensures i != -1 ==> i >= 0 && i % 2 == 0 && i / 2 < |list| && list[i / 2] == Element(member, value[member])
  {
    hide Texts, AllWritable, Enumerates, Less, LP.Pack;
    ghost var at := 0;
    if member in value {
      var k := Position(list, value, member);
      at := 2 * k;
      assert LP.Listpack.Visits(at, 0, 2) && lp.elems[at] == member;
    }
    i := lp.Find(member, 0, 2);
    if i != -1 {
      ghost var k := i / 2;
      assert i == 2 * k;
      FoundAt(list, value, k);
    }
  }

  lemma FoundAt(list: seq<Element>, value: map<Member, Score>, k: nat)
    requires Enumerates(list, value) && k < |list|
    ensures list[k].member in value && value[list[k].member] == list[k].score
  {
    assert list[k] in list;
  }

  method ReadElements(lp: LP.Listpack, parse: Parse, ghost spelt: Spelling, ghost list: seq<Element>, ghost value: map<Member, Score>)
      returns (out: seq<Element>)
    requires Spells(lp, parse, spelt, list, value)
    ensures out == list
  {
    hide Texts, Enumerates, LP.Pack;
    out := [];
    var all := lp.All();
    var member: Member := [];
    var i := 0;
    while i < |all|
      invariant 0 <= i <= |all| && |out| == i / 2 && out == list[..i / 2]
      invariant i % 2 == 1 ==> member == list[i / 2].member
    {
      ghost var k := i / 2;
      assert i == 2 * k || i == 2 * k + 1;
      if i % 2 == 0 {
        member := all[i];
      } else {
        var f := parse(all[i]);
        assert Writable(parse, TextOf(spelt, list[k].member), list[k].score);
        out := out + [Element(member, if f.Some? then f.value else 0.0)];
      }
      i := i + 1;
    }
  }

  /** Finds the first position from which every element is greater, by halving. */
  method Search(all: seq<Element>, e: Element) returns (idx: nat)
    requires Sorted(all)
    ensures idx <= |all| && forall k :: 0 <= k < |all| ==> (Less(e, all[k]) <==> idx <= k)
  {
    hide Less;
    var lo, hi := 0, |all|;
    while lo < hi
      invariant 0 <= lo <= hi <= |all|
      invariant forall k :: 0 <= k < lo ==> !Less(e, all[k])
      invariant forall k :: hi <= k < |all| ==> Less(e, all[k])
    {
      var h := (lo + hi) / 2;
      SearchHalf(all, e, h);
      if !Greater(all[h], e) { lo := h + 1; } else { hi := h; }
    }
    return lo;
  }

  /** The comparison as the search writes it. */
  predicate Greater(x: Element, e: Element)
    ensures Greater(x, e) <==> Less(e, x)
  {
    if x.score != e.score then x.score > e.score else BytesLess(e.member, x.member)
  }

  lemma SearchHalf(all: seq<Element>, e: Element, h: nat)
    requires Sorted(all) && h < |all|
    ensures Less(e, all[h]) ==> forall k :: h <= k < |all| ==> Less(e, all[k])
    ensures !Less(e, all[h]) ==> forall k :: 0 <= k <= h ==> !Less(e, all[k])
  {
    hide Less;
    if Less(e, all[h]) {
      forall k | h < k < |all| ensures Less(e, all[k]) { LessTransitive(e, all[h], all[k]); }
    } else {
      forall k | 0 <= k < h ensures !Less(e, all[k]) {
        if Less(e, all[k]) { LessTransitive(e, all[k], all[h]); }
      }
    }
  }

  lemma InsertedSorted(all: seq<Element>, e: Element, idx: nat)
    requires Sorted(all) && idx <= |all| && e !in all
    requires forall k :: 0 <= k < |all| ==> (Less(e, all[k]) <==> idx <= k)
    ensures Sorted(all[..idx] + [e] + all[idx..])
  {
    hide Less;
    forall k | 0 <= k < idx ensures Less(all[k], e) { LessTotal(all[k], e); }
  }

  /** A member that is not listed yet goes where the order wants it. */
  method InsertOrdered(lp: LP.Listpack, parse: Parse, ghost spelt: Spelling, ghost list: seq<Element>,
                       ghost value: map<Member, Score>, member: Member, text: Bytes, score: Score)
      returns (ghost list': seq<Element>)
    requires Spells(lp, parse, spelt, list, value) && member !in value && Writable(parse, text, score) && |member| <= LP.MAX_LEN
    modifies lp
    ensures Spells(lp, parse, spelt[member := text], list', value[member := score])
  {
    hide Texts, Enumerates, Less, LP.Pack, AllWritable, LP.Listpack.Valid, Writable;
    var all := ReadElements(lp, parse, spelt, list, value);
    ghost var e := Element(member, score);
    ListedSorted(list, value, member);
    var idx := Search(all, Element(member, score));
    SpelledInserted(parse, spelt, list, value, idx, e, text);
    hide Sorted;
    var _ := lp.InsertAt(idx * 2, member);
    var _ := lp.InsertAt(idx * 2 + 1, text);
    list' := list[..idx] + [e] + list[idx..];
  }

  /** The listing with one more member is in order, and its texts are those with two more. */
  lemma SpelledInserted(parse: Parse, spelt: Spelling, list: seq<Element>, value: map<Member, Score>, idx: nat, e: Element, text: Bytes)
    requires Enumerates(list, value) && AllWritable(parse, spelt, list) && e.member !in value && |e.member| <= LP.MAX_LEN
    requires idx <= |list| && Writable(parse, text, e.score) && forall k :: 0 <= k < |list| ==> (Less(e, list[k]) <==> idx <= k)
    ensures |text| <= LP.MAX_LEN
    ensures var list' := list[..idx] + [e] + list[idx..];
            var t := Texts(spelt, list);
            var t1 := t[..2 * idx] + [e.member] + t[2 * idx..];
            && Enumerates(list', value[e.member := e.score]) && AllWritable(parse, spelt[e.member := text], list')
            && t1[..2 * idx + 1] + [text] + t1[2 * idx + 1..] == Texts(spelt[e.member := text], list')
  {
    hide Texts, Enumerates, Less, AllWritable, Writable;
    ListedSorted(list, value, e.member);
    InsertedSorted(list, e, idx);
    EnumeratesInserted(list, idx, e, value);
    TextsInserted(spelt, list, idx, e, text);
    WritableInserted(parse, spelt, list, idx, e, text);
    WritableSize(parse, text, e.score);
  }

  lemma ListedSorted(list: seq<Element>, value: map<Member, Score>, member: Member)
    requires Enumerates(list, value) && member !in value
    ensures Sorted(list) && forall score :: Element(member, score) !in list
    ensures forall i :: 0 <= i < |list| ==> list[i].member != member
  {
    NotListed(list, value, member);
  }

  lemma WritableSize(parse: Parse, text: Bytes, score: Score)
    requires Writable(parse, text, score)
    ensures |text| <= LP.MAX_LEN
  {
  }

  lemma WritableInserted(parse: Parse, spelt: Spelling, list: seq<Element>, k: nat, e: Element, text: Bytes)
    requires AllWritable(parse, spelt, list) && k <= |list| && Writable(parse, text, e.score) && |e.member| <= LP.MAX_LEN
    requires forall i :: 0 <= i < |list| ==> list[i].member != e.member
    ensures AllWritable(parse, spelt[e.member := text], list[..k] + [e] + list[k..])
  {
    hide Writable;
  }

  lemma WritableRemoved(parse: Parse, spelt: Spelling, list: seq<Element>, k: nat)
    requires AllWritable(parse, spelt, list) && k < |list|
    ensures AllWritable(parse, spelt, list[..k] + list[k + 1..])
  {
    hide Writable, TextOf;
  }

  method DeleteMember(lp: LP.Listpack, parse: Parse, ghost spelt: Spelling, ghost list: seq<Element>, ghost value: map<Member, Score>, i: int)
      returns (ghost list': seq<Element>)
    requires Spells(lp, parse, spelt, list, value) && i >= 0 && i % 2 == 0 && i / 2 < |list|
    modifies lp
    ensures Spells(lp, parse, spelt, list', value - {list[i / 2].member})
  {
    hide Texts, Enumerates, LP.Pack, LP.Listpack.Valid, AllWritable;
    ghost var k := i / 2;
    TextsRemoved(spelt, list, k);
    EnumeratesRemoved(list, k, value);
    WritableRemoved(parse, spelt, list, k);
    var _ := lp.DeleteRange(i, 2);
    list' := list[..k] + list[k + 1..];
  }

  /** A member counts as updated when its text differs. */
  method AddToListpack(lp: LP.Listpack, parse: Parse, ghost spelt: Spelling, ghost list: seq<Element>,
                       ghost value: map<Member, Score>, member: Member, text: Bytes, score: Score)
      returns (added: bool, updated: bool, ghost list': seq<Element>)
    requires Spells(lp, parse, spelt, list, value) && Writable(parse, text, score) && |member| <= LP.MAX_LEN
    modifies lp
    ensures Spells(lp, parse, spelt[member := text], list', value[member := score])
    ensures added == (member !in value) && updated == (member in value && TextOf(spelt, member) != text)
    ensures member in value && !updated ==> value[member] == score
  {
    hide Texts, Enumerates, LP.Pack, LP.Listpack.Valid, AllWritable, Writable, Spells;
    var i := FindMember(lp, parse, spelt, list, value, member);
    if i >= 0 {
      var same := ScoreTextIs(lp, parse, spelt, list, value, i, text, score);
      if same {
        assert value[member := score] == value && spelt[member := text] == spelt;
        return false, false, list;
      }
      list' := DeleteMember(lp, parse, spelt, list, value, i);
      assert (value - {member})[member := score] == value[member := score];
      list' := InsertOrdered(lp, parse, spelt, list', value - {member}, member, text, score);
      return false, true, list';
    }
    list' := InsertOrdered(lp, parse, spelt, list, value, member, text, score);
    return true, false, list';
  }

  /** Equal texts have equal scores. */
  method ScoreTextIs(lp: LP.Listpack, parse: Parse, ghost spelt: Spelling, ghost list: seq<Element>,
                     ghost value: map<Member, Score>, i: int, text: Bytes, score: Score)
      returns (same: bool)
    requires Spells(lp, parse, spelt, list, value) && Writable(parse, text, score) && i >= 0 && i % 2 == 0 && i / 2 < |list|
    ensures same <==> TextOf(spelt, list[i / 2].member) == text
    ensures same ==> list[i / 2].member in spelt && list[i / 2].score == score
  {
    hide Texts, Enumerates, LP.Pack, LP.Listpack.Valid;
    ghost var k := i / 2;
    assert i == 2 * k && Writable(parse, TextOf(spelt, list[k].member), list[k].score);
    var old_ := lp.Get(i + 1);
    same := old_ == Some(text);
  }

  // ---------------------------------------------------------------------------
  // The view.

  /** Whether a listpack must not take the member. */
  predicate TooBig(value: map<Member, Score>, member: Member, maxEntries: int, maxValue: int) {
    |member| > maxValue || (member !in value && |value| >= maxEntries)
  }

  class View {
    const parse: Parse
    var lp: LP.Listpack?
    var zs: Z.ZSet?
    ghost var value: map<Member, Score>
    ghost var spelt: Spelling      // the texts, which only a listpack keeps
    ghost var list: seq<Element>   // the pairs of `value` in order, whichever encoding holds them

    ghost function Skip(): set<SL.SkipList>
      reads this, zs
    {
      if zs == null then {} else {zs.sl}
    }

    ghost function Nodes(): seq<SL.Node>
      reads this, zs, Skip()
    {
      if zs == null then [] else zs.sl.nodes
    }

    ghost predicate Valid()
      reads this, lp, zs, Skip(), Nodes()
    {
      && (lp == null <==> zs != null)
      && (lp != null ==> Spells(lp, parse, spelt, list, value))
      && (zs != null ==> zs.Valid() && zs.dict == value && zs.Elements() == list && Enumerates(list, value))
    }

    constructor (parse: Parse)
      ensures Valid() && fresh(lp) && zs == null && this.parse == parse && value == map[]
    {
      this.parse := parse;
      lp := new LP.Listpack();
      zs := null;
      value, spelt, list := map[], map[], [];
    }

    lemma Facts()
      requires Valid()
      ensures Enumerates(list, value) && |list| == |value|
    {
      hide LP.Listpack.Valid, Z.ZSet.Valid, Texts, AllWritable;
      assert Enumerates(list, value);
      hide Enumerates;
      EnumerationSize(list, value);
    }

    method Len() returns (n: int)
      requires Valid()
      ensures n == |value|
    {
      hide Z.ZSet.Valid, Texts, AllWritable, Enumerates, LP.Pack;
      Facts();
      if zs != null {
        n := zs.Len();
      } else {
        n := lp.n / 2;
      }
    }

    method Score(member: Member) returns (score: Option<Score>)
      requires Valid()
      ensures score == if member in value then Some(value[member]) else None
    {
      hide Z.ZSet.Valid, Enumerates;
      if zs != null {
        score := zs.GetScore(member);
      } else {
        score := ListpackScore(lp, parse, spelt, list, value, member);
      }
    }

    method Elements() returns (out: seq<Element>)
      requires Valid()
      ensures out == list
    {
      hide Z.ZSet.Valid, Enumerates;
      if zs != null {
        out := zs.Range(0, -1, false);
      } else {
        out := ReadElements(lp, parse, spelt, list, value);
      }
    }

    method Range(start: int, stop: int, reverse: bool) returns (result: seq<Element>)
      requires Valid()
      ensures result == Window(Directed(list, reverse), start, stop)
    {
      hide Z.ZSet.Valid, Enumerates, Spells, Window;
      if zs != null {
        result := zs.Range(start, stop, reverse);
        return;
      }
      var all := Elements();
      if reverse { all := ReverseAll(all); }
      result := WindowOf(all, start, stop);
    }

    ghost predicate Missed(member: Member)
      reads this, zs, Skip(), Nodes()
    {
      zs != null && zs.Hidden(member)
    }

    /** Only an empty member in a skip list can be missed. */
    method Rank(member: Member, reverse: bool) returns (rank: int, ok: bool)
      requires Valid()
      ensures ok <==> member in value && !Missed(member)
      ensures member != [] ==> (ok <==> member in value)
      ensures ok ==> 0 <= rank < |list| && list[if reverse then |list| - 1 - rank else rank].member == member
      ensures !ok ==> rank == -1
    {
      hide Enumerates, Spells, Less;
      if zs != null {
        rank, ok := zs.Rank(member, reverse);
        return;
      }
      Facts();
      var all := Elements();
      if member in value { ghost var _ := Position(list, value, member); }
      var i := 0;
      while i < |all|
        invariant 0 <= i <= |all| && forall k :: 0 <= k < i ==> all[k].member != member
      {
        if all[i].member == member {
          FoundAt(list, value, i);
          return if reverse then |all| - 1 - i else i, true;
        }
        i := i + 1;
      }
      return -1, false;
    }

    method ShouldPromote(member: Member, maxEntries: int, maxValue: int) returns (yes: bool)
      requires Valid() && lp != null
      ensures yes <==> TooBig(value, member, maxEntries, maxValue)
    {
      hide Z.ZSet.Valid, Enumerates, Texts, AllWritable, LP.Pack;
      Facts();
      if |member| > maxValue { return true; }
      var i := FindMember(lp, parse, spelt, list, value, member);
      if i >= 0 { return false; }
      return lp.n / 2 >= maxEntries;
    }

    /** Moves the pairs to a skip list, with whatever heights are drawn. */
    method Promote(draws: nat -> nat)
      requires Valid() && lp != null
      modifies this
      ensures Valid() && zs != null && fresh(zs) && fresh(zs.sl) && fresh(zs.sl.nodes)
      ensures value == old(value) && spelt == old(spelt)
    {
      hide Z.ZSet.Valid, Z.ZSet.Elements, Enumerates, Spells;
      Facts();
      var all := Elements();
      var z := SkipListOf(all, draws, value);
      zs := z;
      lp := null;
    }

    /** The value is the map's, whatever the thresholds and the heights drawn. So are the flags, unless
        a listpack is given the score it has in another text: it takes that for an update. */
    method Add(member: Member, text: Bytes, score: Score, maxEntries: int, maxValue: int, draw: nat, draws: nat -> nat)
        returns (added: bool, updated: bool)
      requires Valid() && Writable(parse, text, score) && |member| <= LP.MAX_LEN
      modifies this, lp, zs, Skip(), Nodes()
      ensures Valid()
      ensures lp in {null, old(lp)} && (zs == old(zs) || fresh(zs))
      ensures forall l :: l in Skip() ==> l in old(Skip()) || fresh(l)
      ensures forall p :: 0 <= p < |Nodes()| ==> Nodes()[p] in old(Nodes()) || fresh(Nodes()[p])
      ensures value == old(value)[member := score] && spelt == old(spelt)[member := text]
      ensures added == (member !in old(value))
      ensures updated == (member in old(value) && if zs == null then TextOf(old(spelt), member) != text else old(value)[member] != score)
      ensures updated == (member in old(value) && old(value)[member] != score) <==>
              !(zs == null && member in old(value) && old(value)[member] == score && TextOf(old(spelt), member) != text)
      ensures zs == null <==> old(zs) == null && !TooBig(old(value), member, maxEntries, maxValue)
    {
      hide Z.ZSet.Valid, Enumerates, Spells, Writable;
      if zs == null {
        var promote := ShouldPromote(member, maxEntries, maxValue);
        if promote { Promote(draws); }
      }
      if zs != null {
        added, updated := AddToSkipList(member, text, score, draw);
        return;
      }
      ghost var list';
      added, updated, list' := AddToListpack(lp, parse, spelt, list, value, member, text, score);
      list, value, spelt := list', value[member := score], spelt[member := text];
    }

    method AddToSkipList(member: Member, ghost text: Bytes, score: Score, draw: nat) returns (added: bool, updated: bool)
      requires Valid() && zs != null
      modifies this`value, this`spelt, this`list, zs, zs.sl, zs.sl.nodes
      ensures Valid() && zs.sl == old(zs.sl) && forall p :: 0 <= p < |Nodes()| ==> Nodes()[p] in old(Nodes()) || fresh(Nodes()[p])
      ensures value == old(value)[member := score] && spelt == old(spelt)[member := text]
      ensures added == (member !in old(value)) && updated == (member in old(value) && old(value)[member] != score)
    {
      hide Z.ZSet.Valid, Z.ZSet.Elements, Enumerates, Spells;
      added, updated := zs.Add(member, score, draw);
      zs.Lists();
      value, spelt := zs.dict, spelt[member := text];
      list := zs.Elements();
    }

    method Remove(member: Member) returns (removed: bool)
      requires Valid()
      modifies this, lp, zs, Skip(), Nodes()
      ensures Valid()
      ensures lp in {null, old(lp)} && (zs == old(zs) || fresh(zs))
      ensures forall l :: l in Skip() ==> l in old(Skip()) || fresh(l)
      ensures forall p :: 0 <= p < |Nodes()| ==> Nodes()[p] in old(Nodes()) || fresh(Nodes()[p])
      ensures value == old(value) - {member} && removed == (member in old(value)) && spelt == old(spelt)
    {
      hide Z.ZSet.Valid, Enumerates, Spells;
      if zs != null {
        removed := zs.Remove(member);
        zs.Lists();
        value := zs.dict;
        list := zs.Elements();
        return;
      }
      var i := FindMember(lp, parse, spelt, list, value, member);
      if i < 0 {
        assert value - {member} == value;
        return false;
      }
      ghost var list' := DeleteMember(lp, parse, spelt, list, value, i);
      list, value := list', value - {member};
      return true;
    }
  }

  method ListpackScore(lp: LP.Listpack, parse: Parse, ghost spelt: Spelling, ghost list: seq<Element>, ghost value: map<Member, Score>, member: Member)
      returns (score: Option<Score>)
    requires Spells(lp, parse, spelt, list, value)
    ensures score == if member in value then Some(value[member]) else None
  {
    hide Texts, Enumerates, LP.Pack, LP.Listpack.Valid;
    var i := FindMember(lp, parse, spelt, list, value, member);
    if i < 0 { return None; }
    ghost var k := i / 2;
    assert i == 2 * k && Writable(parse, TextOf(spelt, list[k].member), list[k].score);
    var text := lp.Get(i + 1);
    score := parse(text.value);
  }

  method WindowOf(all: seq<Element>, start: int, stop: int) returns (result: seq<Element>)
    ensures result == Window(all, start, stop)
  {
    var n := |all|;
    if n == 0 { return []; }
    var first := if start < 0 then start + n else start;
    var last := if stop < 0 then stop + n else stop;
    if first < 0 { first := 0; }
    if last >= n { last := n - 1; }
    if first > last || first >= n { return []; }
    return all[first..last + 1];
  }

  /** `r` is `s` with the elements outside `i..j` exchanged end for end. */
  ghost predicate Turned(r: seq<Element>, s: seq<Element>, i: int, j: int) {
    |r| == |s| && forall k :: 0 <= k < |s| ==> r[k] == s[if i <= k <= j then k else |s| - 1 - k]
  }

  lemma TurnedStep(r: seq<Element>, s: seq<Element>, i: int, j: int)
    requires Turned(r, s, i, j) && 0 <= i < j < |s| && i + j == |s| - 1
    ensures Turned(r[i := r[j]][j := r[i]], s, i + 1, j - 1)
  {
    var r' := r[i := r[j]][j := r[i]];
    forall k | 0 <= k < |s| ensures r'[k] == s[if i + 1 <= k <= j - 1 then k else |s| - 1 - k] {
      assert r[k] == s[if i <= k <= j then k else |s| - 1 - k];
    }
  }

  method ReverseAll(s: seq<Element>) returns (r: seq<Element>)
    ensures r == Reversed(s)
  {
    hide Turned;
    r := s;
    var i, j := 0, |s| - 1;
    TurnedNone(s);
    while i < j
      invariant 0 <= i && i + j == |s| - 1 && j >= i - 1 && |r| == |s| && Turned(r, s, i, j)
    {
      TurnedStep(r, s, i, j);
      r := r[i := r[j]][j := r[i]];
      i, j := i + 1, j - 1;
    }
    TurnedAll(r, s, i, j);
  }

  lemma TurnedNone(s: seq<Element>)
    ensures Turned(s, s, 0, |s| - 1)
  {
  }

  lemma TurnedAll(r: seq<Element>, s: seq<Element>, i: int, j: int)
    requires Turned(r, s, i, j) && i >= j && i + j == |s| - 1
    ensures r == Reversed(s)
  {
  }

  /** Inserting the pairs of a map one by one gives the map. */
  method SkipListOf(all: seq<Element>, draws: nat -> nat, ghost value: map<Member, Score>) returns (z: Z.ZSet)
    requires Enumerates(all, value)
    ensures fresh(z) && fresh(z.sl) && fresh(z.sl.nodes) && z.Valid() && z.dict == value && z.Elements() == all
  {
    hide Z.ZSet.Valid, Enumerates;
    z := new Z.ZSet();
    var i := 0;
    MapOfNone(all);
    while i < |all|
      invariant 0 <= i <= |all| && fresh(z) && fresh(z.sl) && fresh(z.sl.nodes) && z.Valid()
      invariant z.dict == MapOf(all[..i])
    {
      var _, _ := z.Add(all[i].member, all[i].score, draws(i));
      MapOfNext(all, i);
      i := i + 1;
    }
    assert all[..i] == all;
    MapOfListed(all, value);
    z.Lists();
    EnumerationUnique(z.Elements(), all, value);
  }

  // ---------------------------------------------------------------------------
  // Whole runs.

  ghost predicate Storable(parse: Parse, op: Z.Op, text: Bytes) {
    op.Add? ==> Writable(parse, text, op.score) && |op.member| <= LP.MAX_LEN
  }

  /** What an operation answers of a map. */
  datatype Answer = Answer(changed: bool, updated: bool)

  ghost function MapAnswer(m: map<Member, Score>, op: Z.Op): Answer {
    match op
    case Add(x, score, _) => Answer(x !in m, x in m && m[x] != score)
    case Remove(x) => Answer(x in m, false)
  }

  /** Additions of equal scores come with equal texts. */
  ghost predicate OneText(ops: seq<Z.Op>, texts: nat -> Bytes) {
    forall i: nat, j: nat {:trigger texts(i), texts(j)} ::
      i < |ops| && j < |ops| && ops[i].Add? && ops[j].Add? && ops[i].score == ops[j].score ==> texts(i) == texts(j)
  }

  /** The text held for a member came with an addition of its score. */
  ghost predicate Sourced(value: map<Member, Score>, spelt: Spelling, ops: seq<Z.Op>, texts: nat -> Bytes, n: nat) {
    forall m :: m in value ==>
      exists j: nat {:trigger texts(j)} :: j < n <= |ops| && ops[j].Add? && ops[j].score == value[m] && texts(j) == TextOf(spelt, m)
  }

  lemma SourcedAdd(value: map<Member, Score>, spelt: Spelling, ops: seq<Z.Op>, texts: nat -> Bytes, n: nat)
    requires Sourced(value, spelt, ops, texts, n) && n < |ops| && ops[n].Add?
    ensures Sourced(value[ops[n].member := ops[n].score], spelt[ops[n].member := texts(n)], ops, texts, n + 1)
  {
    var x := ops[n].member;
    var value', spelt' := value[x := ops[n].score], spelt[x := texts(n)];
    forall m | m in value' ensures exists j: nat {:trigger texts(j)} ::
      j < n + 1 <= |ops| && ops[j].Add? && ops[j].score == value'[m] && texts(j) == TextOf(spelt', m)
    {
      if m == x {
        assert texts(n) == TextOf(spelt', m);
      } else {
        var j: nat :| j < n && ops[j].Add? && ops[j].score == value[m] && texts(j) == TextOf(spelt, m);
        assert texts(j) == TextOf(spelt', m);
      }
    }
  }

  lemma SourcedRemove(value: map<Member, Score>, spelt: Spelling, ops: seq<Z.Op>, texts: nat -> Bytes, n: nat, x: Member)
    requires Sourced(value, spelt, ops, texts, n) && n < |ops|
    ensures Sourced(value - {x}, spelt, ops, texts, n + 1)
  {
    forall m | m in value - {x} ensures exists j: nat {:trigger texts(j)} ::
      j < n + 1 <= |ops| && ops[j].Add? && ops[j].score == value[m] && texts(j) == TextOf(spelt, m)
    {
      var j: nat :| j < n && ops[j].Add? && ops[j].score == value[m] && texts(j) == TextOf(spelt, m);
    }
  }

  lemma SameText(value: map<Member, Score>, spelt: Spelling, ops: seq<Z.Op>, texts: nat -> Bytes, n: nat)
    requires Sourced(value, spelt, ops, texts, n) && n < |ops| && ops[n].Add? && OneText(ops, texts)
    ensures ops[n].member in value && value[ops[n].member] == ops[n].score ==> TextOf(spelt, ops[n].member) == texts(n)
  {
    var x := ops[n].member;
    if x in value && value[x] == ops[n].score {
      var j: nat :| j < n && ops[j].Add? && ops[j].score == value[x] && texts(j) == TextOf(spelt, x);
      assert texts(n) == texts(j);
    }
  }

  /**
   * After any run, with the two thresholds set anew before every step and any levels drawn, the view
   * holds the replayed map and lists it in order: nothing that can be asked of it tells when, or
   * whether, it was promoted. Where equal scores have equal texts every answer on the way is the map's
   * too. `draws(i, k)` is drawn for the k-th member should step i promote.
   */
  method Run(parse: Parse, ops: seq<Z.Op>, texts: nat -> Bytes,
             maxEntries: nat -> int, maxValue: nat -> int, draws: (nat, nat) -> nat)
      returns (v: View, answers: seq<Answer>)
    requires forall i :: 0 <= i < |ops| ==> Storable(parse, ops[i], texts(i))
    ensures v.Valid() && v.value == Z.Replay(ops) && Enumerates(v.list, Z.Replay(ops))
    ensures |answers| == |ops| && Right(answers, ops, OneText(ops, texts))
  {
    hide View.Valid, Enumerates, Writable, Sourced, OneText, Right;
    v := new View(parse);
    answers := [];
    var i := 0;
    SourcedNone(v.spelt, ops, texts);
    RightNone(ops, OneText(ops, texts));
    while i < |ops|
      invariant 0 <= i <= |ops| && v.parse == parse && v.Valid() && v.value == Z.Replay(ops[..i])
      invariant fresh(v) && (v.lp == null || fresh(v.lp)) && (v.zs == null || fresh(v.zs))
      invariant fresh(v.Skip()) && fresh(v.Nodes())
      invariant Sourced(v.value, v.spelt, ops, texts, i)
      invariant |answers| == i && Right(answers, ops, OneText(ops, texts))
    {
      assert ops[..i + 1][..i] == ops[..i];
      var a := Step(v, ops, texts, i, maxEntries(i), maxValue(i), k => draws(i, k));
      RightSnoc(answers, a, ops, OneText(ops, texts));
      answers := answers + [a];
      i := i + 1;
    }
    assert ops[..i] == ops;
    v.Facts();
  }

  /** Every answer says whether the map changed, and, when `exact`, is the map's in full. */
  ghost predicate Right(answers: seq<Answer>, ops: seq<Z.Op>, exact: bool) {
    |answers| <= |ops| && forall i :: 0 <= i < |answers| ==> RightAnswer(answers[i], Z.Replay(ops[..i]), ops[i], exact)
  }

  ghost predicate RightAnswer(a: Answer, m: map<Member, Score>, op: Z.Op, exact: bool) {
    a.changed == MapAnswer(m, op).changed && (exact ==> a == MapAnswer(m, op))
  }

  lemma RightNone(ops: seq<Z.Op>, exact: bool)
    ensures Right([], ops, exact)
  {
  }

  lemma RightSnoc(answers: seq<Answer>, a: Answer, ops: seq<Z.Op>, exact: bool)
    requires Right(answers, ops, exact) && |answers| < |ops|
    requires RightAnswer(a, Z.Replay(ops[..|answers|]), ops[|answers|], exact)
    ensures Right(answers + [a], ops, exact)
  {
    hide RightAnswer;
  }

  method Step(v: View, ops: seq<Z.Op>, texts: nat -> Bytes, i: nat, maxEntries: int, maxValue: int, draws: nat -> nat)
      returns (a: Answer)
    requires v.Valid() && i < |ops| && Storable(v.parse, ops[i], texts(i))
    requires Sourced(v.value, v.spelt, ops, texts, i)
    modifies v, v.lp, v.zs, v.Skip(), v.Nodes()
    ensures v.Valid() && v.value == Z.Apply(old(v.value), ops[i]) && Sourced(v.value, v.spelt, ops, texts, i + 1)
    ensures RightAnswer(a, old(v.value), ops[i], OneText(ops, texts))
    ensures v.lp in {null, old(v.lp)} && (v.zs == old(v.zs) || fresh(v.zs))
    ensures forall l :: l in v.Skip() ==> l in old(v.Skip()) || fresh(l)
    ensures forall p :: 0 <= p < |v.Nodes()| ==> v.Nodes()[p] in old(v.Nodes()) || fresh(v.Nodes()[p])
  {
    hide View.Valid, Writable, Sourced, OneText;
    match ops[i] {
      case Add(x, score, draw) =>
        SourcedAdd(v.value, v.spelt, ops, texts, i);
        if OneText(ops, texts) { SameText(v.value, v.spelt, ops, texts, i); }
        var added, updated := v.Add(x, texts(i), score, maxEntries, maxValue, draw, draws);
        a := Answer(added, updated);
      case Remove(x) =>
        SourcedRemove(v.value, v.spelt, ops, texts, i, x);
        var removed := v.Remove(x);
        a := Answer(removed, false);
    }
  }

  lemma SourcedNone(spelt: Spelling, ops: seq<Z.Op>, texts: nat -> Bytes)
    ensures Sourced(map[], spelt, ops, texts, 0)
  {
  }

  /** Giving a member the score 0 and then -0 is an update in a listpack and none in a skip list. */
  method ZeroChangesSign(parse: Parse, member: Member) returns (packed: bool, skipped: bool)
    requires Writable(parse, [48], 0.0) && Writable(parse, [45, 48], 0.0) && |member| <= LP.MAX_LEN
    ensures packed && !skipped
  {
    packed := AddZeros(parse, member, 1);
    skipped := AddZeros(parse, member, 0);
  }

  /** ZADD with 0, then with -0, under a limit on the entries of a listpack. */
  method AddZeros(parse: Parse, member: Member, maxEntries: int) returns (updated: bool)
    requires Writable(parse, [48], 0.0) && Writable(parse, [45, 48], 0.0) && |member| <= LP.MAX_LEN
    ensures updated <==> maxEntries > 0
  {
    hide View.Valid, Writable;
    var v := new View(parse);
    var added, changed := v.Add(member, [48], 0.0, maxEntries, |member|, 0, _ => 0);
    added, updated := v.Add(member, [45, 48], 0.0, maxEntries, |member|, 0, _ => 0);
  }
}
