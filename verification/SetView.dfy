/** A set behind three encodings: sorted integers, a listpack, a hash set; it only ever moves forward. */
module SetView {
  import opened Base
  import Decimal
  import I = IntSet
  import LP = Listpack

  /** `list` names each element of `value` once. */
  ghost predicate Names(list: seq<Bytes>, value: set<Bytes>) {
    && (forall i, j :: 0 <= i < j < |list| ==> list[i] != list[j])
    && (forall x :: x in value <==> x in list)
  }

  lemma {:induction false} NamesSize(list: seq<Bytes>, value: set<Bytes>)
    requires Names(list, value)
    ensures |list| == |value|
    decreases |list|
  {
    if list == [] {
      assert value == {};
    } else {
      var last, front := list[|list| - 1], list[..|list| - 1];
      assert list == front + [last];
      NamesSize(front, value - {last});
      assert value == (value - {last}) + {last};
    }
  }

  lemma NamesMember(list: seq<Bytes>, value: set<Bytes>, m: Bytes)
    requires Names(list, value)
    ensures m in value <==> m in list
  {
  }

  lemma NamesInserted(list: seq<Bytes>, value: set<Bytes>, i: nat, x: Bytes)
    requires Names(list, value) && x !in value && i <= |list|
    ensures Names(list[..i] + [x] + list[i..], value + {x})
  {
    var list' := list[..i] + [x] + list[i..];
    assert list == list[..i] + list[i..];
    forall y ensures y in list' <==> y in value + {x} {
      assert y in list' <==> y in list[..i] || y == x || y in list[i..];
    }
  }

  lemma NamesRemoved(list: seq<Bytes>, value: set<Bytes>, i: nat)
    requires Names(list, value) && i < |list|
    ensures Names(list[..i] + list[i + 1..], value - {list[i]})
  {
    var list' := list[..i] + list[i + 1..];
    assert list == list[..i] + [list[i]] + list[i + 1..];
    forall y ensures y in list' <==> y in value - {list[i]} {
      assert y in list' <==> y in list[..i] || y in list[i + 1..];
      assert y in list <==> y in list[..i] || y == list[i] || y in list[i + 1..];
      if y in list[..i] { var j :| 0 <= j < i && list[..i][j] == y; assert list[j] != list[i]; }
      if y in list[i + 1..] { var j :| 0 <= j < |list| - i - 1 && list[i + 1..][j] == y; assert list[i + 1 + j] != list[i]; }
    }
  }

  datatype Encoding = Ints | Packed | Hashed

  /** The configured thresholds. */
  datatype Limits = Limits(maxInts: int, maxEntries: int, maxValue: int)

  predicate FitsPacked(m: Bytes, card: int, lim: Limits) {
    |m| <= lim.maxValue && card < lim.maxEntries
  }

  /** The encoding after a new member joins `card` others. */
  function Next(enc: Encoding, card: int, m: Bytes, lim: Limits): Encoding {
    if enc == Hashed then Hashed
    else if enc == Ints && I.Parse(m).Some? && card < lim.maxInts then Ints
    else if FitsPacked(m, card, lim) then Packed
    else Hashed
  }

  class View {
    var ints: I.IntSet?
    var lp: LP.Listpack?
    var hashed: Option<set<Bytes>>
    ghost var value: set<Bytes>

    ghost predicate Valid()
      reads this, ints, lp
    {
      && (ints != null ==> lp == null && hashed.None? && ints.Valid() && Names(I.Printed(ints.vals), value))
      && (lp != null ==> hashed.None? && lp.Valid() && Names(lp.elems, value))
      && (hashed.Some? ==> hashed.value == value)
      && (ints != null || lp != null || hashed.Some?)
    }

    function Encoding(): Encoding
      reads this
    {
      if hashed.Some? then Hashed else if lp != null then Packed else Ints
    }

    constructor ()
      ensures Valid() && fresh(ints) && lp == null && value == {} && Encoding() == Ints
    {
      ints := new I.IntSet();
      lp, hashed, value := null, None, {};
    }

    method Card() returns (n: nat)
      requires Valid()
      ensures n == |value| && (ints != null ==> n == |ints.vals|)
    {
      hide Names;
      if hashed.Some? {
        n := |hashed.value|;
      } else if lp != null {
        NamesSize(lp.elems, value);
        n := lp.n;
      } else {
        NamesSize(I.Printed(ints.vals), value);
        n := |ints.vals|;
      }
    }

    method AddInt(n: int, ghost m: Bytes)
      requires Valid() && ints != null && I.Parse(m) == Some(n)
      modifies this`value, ints
      ensures Valid() && value == old(value) + {m} && hashed == old(hashed)
    {
      hide Names, I.Parse, I.Printed, I.Increasing, Decimal.FormatInt;
      I.ParsedLength(m);
      PrintedMember(ints.vals, m);
      NamesMember(I.Printed(ints.vals), value, m);
      ghost var was := ints.vals;
      var added := ints.Add(n);
      if added {
        ghost var i :| 0 <= i <= |was| && ints.vals == was[..i] + [n] + was[i..];
        NamesInserted(I.Printed(was), value, i, m);
        PrintedInserted(was, i, n);
      } else {
        assert value + {m} == value;
      }
      value := value + {m};
    }

    method AppendText(m: Bytes)
      requires Valid() && lp != null && m !in value && |m| <= LP.MAX_LEN
      modifies this`value, lp
      ensures Valid() && value == old(value) + {m}
    {
      hide Names, LP.Listpack.Valid;
      ghost var was := lp.elems;
      NamesInserted(was, value, |was|, m);
      assert was[..|was|] + [m] + was[|was|..] == was + [m];
      lp.Append(m);
      value := value + {m};
    }

    method Contains(m: Bytes) returns (r: bool)
      requires Valid()
      ensures r <==> m in value
    {
      hide LP.Pack, I.Parse;
      if hashed.Some? { return m in hashed.value; }
      if lp != null {
        ghost var at := if m in lp.elems then Where(lp.elems, m) else 0;
        assert m in lp.elems ==> LP.Listpack.Visits(at, 0, 1) && lp.elems[at] == m;
        var i := lp.Find(m, 0, 1);
        return i >= 0;
      }
      PrintedMember(ints.vals, m);
      var n := I.Parse(m);
      if n.None? { return false; }
      var _, found := ints.Search(n.value);
      return found;
    }

    /** Every element once, in an order of the encoding's own. */
    method Members() returns (out: seq<Bytes>)
      requires Valid()
      ensures Names(out, value)
      ensures ints != null ==> out == I.Printed(ints.vals)
    {
      hide LP.Listpack.Valid;
      if hashed.Some? {
        out := ListSet(hashed.value);
      } else if lp != null {
        out := lp.All();
      } else {
        out := I.Printed(ints.vals);
      }
    }

    method ToListpack()
      requires Valid() && ints != null
      modifies this
      ensures Valid() && value == old(value) && lp != null && fresh(lp) && ints == null
    {
      hide Names, LP.Listpack.Valid;
      var members := Members();
      PrintedShort(ints.vals);
      var fresh_ := new LP.Listpack();
      var i := 0;
      while i < |members|
        invariant 0 <= i <= |members| && fresh(fresh_) && fresh_.Valid() && fresh_.elems == members[..i]
        modifies fresh_
      {
        fresh_.Append(members[i]);
        i := i + 1;
      }
      assert members[..i] == members;
      ints, lp, hashed := null, fresh_, None;
    }

    method ToHashSet()
      requires Valid()
      modifies this
      ensures Valid() && value == old(value) && hashed.Some? && ints == null && lp == null
    {
      var members := Members();
      var s: set<Bytes> := {};
      var i := 0;
      while i < |members|
        invariant 0 <= i <= |members| && forall x :: x in s <==> x in members[..i]
        modifies {}
      {
        s := s + {members[i]};
        i := i + 1;
      }
      assert members[..i] == members && s == value;
      ints, lp, hashed := null, null, Some(s);
    }

    /** Adds one member, moving to the encoding the thresholds call for. */
    method AddOne(m: Bytes, lim: Limits) returns (added: bool)
      requires Valid() && |m| <= LP.MAX_LEN
      modifies this, ints, lp
      ensures Valid() && value == old(value) + {m} && added == (m !in old(value))
      ensures Encoding() == if added then Next(old(Encoding()), |old(value)|, m, lim) else old(Encoding())
      ensures (ints == old(ints) || ints == null) && (lp == old(lp) || lp == null || fresh(lp))
    {
      hide Names, LP.Listpack.Valid, I.Parse;
      var there := Contains(m);
      if there {
        assert value + {m} == value;
        return false;
      }
      var card := Card();
      if ints != null {
        var n := I.Parse(m);
        if n.Some? && |ints.vals| < lim.maxInts {
          AddInt(n.value, m);
          return true;
        }
        if FitsPacked(m, card, lim) { ToListpack(); } else { ToHashSet(); }
      }
      if lp != null {
        var n := Card();
        if |m| > lim.maxValue || n >= lim.maxEntries {
          ToHashSet();
        } else {
          AppendText(m);
          return true;
        }
      }
      hashed := Some(hashed.value + {m});
      value := value + {m};
      return true;
    }

    method RemoveOne(m: Bytes) returns (removed: bool)
      requires Valid()
      modifies this, ints, lp
      ensures Valid() && value == old(value) - {m} && removed == (m in old(value))
      ensures ints == old(ints) && lp == old(lp) && Encoding() == old(Encoding())
    {
      hide Names, LP.Listpack.Valid, I.IntSet.Valid;
      removed := Contains(m);
      if !removed {
        assert value - {m} == value;
        return;
      }
      if hashed.Some? {
        hashed := Some(hashed.value - {m});
        value := value - {m};
      } else if lp != null {
        DeleteText(m);
      } else {
        RemoveInt(m);
      }
    }

    method DeleteText(m: Bytes)
      requires Valid() && lp != null && m in value
      modifies this`value, lp
      ensures Valid() && value == old(value) - {m}
    {
      hide Names, LP.Listpack.Valid;
      NamesMember(lp.elems, value, m);
      ghost var at := Where(lp.elems, m);
      assert LP.Listpack.Visits(at, 0, 1);
      var i := lp.Find(m, 0, 1);
      NamesRemoved(lp.elems, value, i);
      var _ := lp.DeleteRange(i, 1);
      value := value - {m};
    }

    method RemoveInt(m: Bytes)
      requires Valid() && ints != null && m in value
      modifies this`value, ints
      ensures Valid() && value == old(value) - {m}
    {
      hide Names, I.Parse, I.Printed, I.Increasing, Decimal.FormatInt;
      PrintedMember(ints.vals, m);
      NamesMember(I.Printed(ints.vals), value, m);
      I.ParsedLength(m);
      ghost var was := ints.vals;
      var n := I.Parse(m);
      var _ := ints.Remove(n.value);
      ghost var i :| 0 <= i < |was| && was[i] == n.value && ints.vals == was[..i] + was[i + 1..];
      NamesRemoved(I.Printed(was), value, i);
      PrintedRemoved(was, i);
      value := value - {m};
    }

    /** Adds members one after the other and counts the new ones. */
    method Add(members: seq<Bytes>, lim: Limits) returns (added: nat)
      requires Valid() && forall i :: 0 <= i < |members| ==> |members[i]| <= LP.MAX_LEN
      modifies this, ints, lp
      ensures Valid() && value == old(value) + Elements(members) && added == |value| - |old(value)|
      ensures Encoding() == Ends(old(Encoding()), old(value), members, lim)
      ensures (ints == old(ints) || ints == null) && (lp == old(lp) || lp == null || fresh(lp))
    {
      hide Valid, Next, Elements, Ends, View.Encoding;
      added := 0;
      var i := 0;
      ElementsStart(value, members);
      while i < |members|
        invariant 0 <= i <= |members| && Valid() && value == old(value) + Elements(members[..i])
        invariant added == |value| - |old(value)|
        invariant Ends(old(Encoding()), old(value), members, lim) == Ends(Encoding(), value, members[i..], lim)
        invariant (ints == old(ints) || ints == null) && (lp == old(lp) || lp == null || fresh(lp))
      {
        ElementsNext(old(value), members, i);
        EndsNext(Encoding(), value, members, i, lim);
        SizeAdded(value, members[i]);
        var one := AddOne(members[i], lim);
        if one { added := added + 1; }
        i := i + 1;
      }
      EndsLast(Encoding(), value, members, lim);
    }

    method Remove(members: seq<Bytes>) returns (removed: nat)
      requires Valid()
      modifies this, ints, lp
      ensures Valid() && value == old(value) - Elements(members) && removed == |old(value)| - |value|
      ensures ints == old(ints) && lp == old(lp) && Encoding() == old(Encoding())
    {
      hide Valid, Elements, View.Encoding;
      removed := 0;
      var i := 0;
      ElementsStart(value, members);
      while i < |members|
        invariant 0 <= i <= |members| && Valid() && value == old(value) - Elements(members[..i])
        invariant removed == |old(value)| - |value|
        invariant ints == old(ints) && lp == old(lp) && Encoding() == old(Encoding())
      {
        ElementsNext(old(value), members, i);
        SizeRemoved(value, members[i]);
        var one := RemoveOne(members[i]);
        if one { removed := removed + 1; }
        i := i + 1;
      }
      assert members[..i] == members;
    }

    /** Removes and returns `count` members, or all of them. */
    method Pop(count: nat) returns (picked: seq<Bytes>)
      requires Valid()
      modifies this, ints, lp
      ensures Valid() && Elements(picked) <= old(value) && value == old(value) - Elements(picked)
      ensures |picked| == |Elements(picked)| == if count < |old(value)| then count else |old(value)|
    {
      hide Valid;
      var members := Members();
      NamesSize(members, value);
      picked := members[..if count > |members| then |members| else count];
      NamesSize(picked, Elements(picked));
      var _ := Remove(picked);
    }
  }

  ghost function Elements(members: seq<Bytes>): set<Bytes> {
    set x | x in members
  }

  lemma ElementsStart(value: set<Bytes>, members: seq<Bytes>)
    ensures value + Elements(members[..0]) == value == value - Elements(members[..0]) && members[0..] == members
  {
  }

  lemma ElementsNext(value: set<Bytes>, members: seq<Bytes>, i: nat)
    requires i < |members|
    ensures value + Elements(members[..i + 1]) == (value + Elements(members[..i])) + {members[i]}
    ensures value - Elements(members[..i + 1]) == (value - Elements(members[..i])) - {members[i]}
  {
    assert members[..i + 1] == members[..i] + [members[i]];
  }

  lemma SizeAdded(value: set<Bytes>, m: Bytes)
    ensures |value + {m}| == |value| + if m in value then 0 else 1
  {
    if m in value { assert value + {m} == value; }
  }

  lemma SizeRemoved(value: set<Bytes>, m: Bytes)
    ensures |value - {m}| == |value| - if m in value then 1 else 0
  {
    if m in value { assert value == (value - {m}) + {m}; } else { assert value - {m} == value; }
  }

  lemma EndsNext(enc: Encoding, value: set<Bytes>, members: seq<Bytes>, i: nat, lim: Limits)
    requires i < |members|
    ensures Ends(enc, value, members[i..], lim) ==
            Ends(if members[i] in value then enc else Next(enc, |value|, members[i], lim), value + {members[i]}, members[i + 1..], lim)
  {
    assert members[i..][1..] == members[i + 1..];
    if members[i] in value { assert value + {members[i]} == value; }
  }

  lemma EndsLast(enc: Encoding, value: set<Bytes>, members: seq<Bytes>, lim: Limits)
    ensures Ends(enc, value, members[|members|..], lim) == enc && members[..|members|] == members
  {
  }

  /** The encoding after a row of additions. */
  ghost function Ends(enc: Encoding, value: set<Bytes>, members: seq<Bytes>, lim: Limits): Encoding
    decreases |members|
  {
    if members == [] then enc
    else if members[0] in value then Ends(enc, value, members[1..], lim)
    else Ends(Next(enc, |value|, members[0], lim), value + {members[0]}, members[1..], lim)
  }

  ghost function Where(list: seq<Bytes>, m: Bytes): (i: nat)
    requires m in list
    ensures i < |list| && list[i] == m
  {
    var i :| 0 <= i < |list| && list[i] == m;
    i
  }

  lemma PrintedMember(vals: seq<int>, m: Bytes)
    requires forall i :: 0 <= i < |vals| ==> I.InRange(vals[i])
    ensures m in I.Printed(vals) <==> I.Parse(m).Some? && I.Parse(m).value in vals
  {
    hide I.Parse;
    if m in I.Printed(vals) {
      var i :| 0 <= i < |vals| && I.Printed(vals)[i] == m;
      I.ParseIffFormat(m, vals[i]);
    }
    if I.Parse(m).Some? && I.Parse(m).value in vals {
      var i :| 0 <= i < |vals| && vals[i] == I.Parse(m).value;
      I.ParseIffFormat(m, vals[i]);
      assert I.Printed(vals)[i] == m;
    }
  }

  lemma PrintedInserted(vals: seq<int>, i: nat, n: int)
    requires i <= |vals|
    ensures I.Printed(vals[..i] + [n] + vals[i..]) == I.Printed(vals)[..i] + [Decimal.FormatInt(n)] + I.Printed(vals)[i..]
  {
    hide Decimal.FormatInt;
  }

  lemma PrintedRemoved(vals: seq<int>, i: nat)
    requires i < |vals|
    ensures I.Printed(vals[..i] + vals[i + 1..]) == I.Printed(vals)[..i] + I.Printed(vals)[i + 1..]
  {
    hide Decimal.FormatInt;
  }

  lemma PrintedShort(vals: seq<int>)
    requires forall i :: 0 <= i < |vals| ==> I.InRange(vals[i])
    ensures forall i :: 0 <= i < |vals| ==> |I.Printed(vals)[i]| <= 20
  {
    forall i | 0 <= i < |vals| ensures |I.Printed(vals)[i]| <= 20 { I.FormatFits(vals[i]); }
  }

  method ListSet(s: set<Bytes>) returns (out: seq<Bytes>)
    ensures Names(out, s)
  {
    out := [];
    var todo := s;
    while todo != {}
      invariant todo <= s && Names(out, s - todo)
    {
      var x :| x in todo;
      NamesInserted(out, s - todo, |out|, x);
      assert out[..|out|] + [x] + out[|out|..] == out + [x] && s - (todo - {x}) == (s - todo) + {x};
      out, todo := out + [x], todo - {x};
    }
    assert s - {} == s;
  }

  // ---------------------------------------------------------------------------
  // Whole runs.

  datatype Op = Insert(m: Bytes, lim: Limits) | Delete(m: Bytes)

  function Replay(ops: seq<Op>): set<Bytes> {
    if ops == [] then {}
    else
      var s := Replay(ops[..|ops| - 1]);
      match ops[|ops| - 1]
      case Insert(m, _) => s + {m}
      case Delete(m) => s - {m}
  }

  lemma ReplayNone(ops: seq<Op>)
    ensures Replay(ops[..0]) == {}
  {
  }

  lemma ReplayNext(ops: seq<Op>, i: nat)
    requires i < |ops|
    ensures Replay(ops[..i + 1]) == if ops[i].Insert? then Replay(ops[..i]) + {ops[i].m} else Replay(ops[..i]) - {ops[i].m}
  {
    assert ops[..i + 1][..i] == ops[..i];
  }

  /** Whatever thresholds each step finds, the set is the replayed set. */
  method Run(ops: seq<Op>) returns (v: View)
    requires forall i :: 0 <= i < |ops| && ops[i].Insert? ==> |ops[i].m| <= LP.MAX_LEN
    ensures v.Valid() && v.value == Replay(ops)
  {
    hide View.Valid, View.Encoding, Next, Replay;
    v := new View();
    var i := 0;
    ReplayNone(ops);
    while i < |ops|
      invariant 0 <= i <= |ops| && v.Valid() && v.value == Replay(ops[..i])
      invariant fresh(v) && (v.ints == null || fresh(v.ints)) && (v.lp == null || fresh(v.lp))
    {
      ReplayNext(ops, i);
      match ops[i] {
        case Insert(m, lim) => var _ := v.AddOne(m, lim);
        case Delete(m) => var _ := v.RemoveOne(m);
      }
      i := i + 1;
    }
    assert ops[..i] == ops;
  }
}
