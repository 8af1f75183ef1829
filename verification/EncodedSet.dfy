/** Building a set in one go, as a snapshot load does, against building it member by member. */
module EncodedSet {
  import opened Base
  import opened SetView
  import I = IntSet
  import L = ListView
  import LP = Listpack
  import Decimal

  ghost predicate Distinct(members: seq<Bytes>) {
    forall i, j :: 0 <= i < j < |members| ==> members[i] != members[j]
  }

  function MaxLen(members: seq<Bytes>): (n: nat)
    ensures forall i :: 0 <= i < |members| ==> |members[i]| <= n
    ensures n == 0 || exists i :: 0 <= i < |members| && |members[i]| == n
  {
    if members == [] then 0
    else
      var rest, last := MaxLen(members[..|members| - 1]), members[|members| - 1];
      if |last| > rest then |last| else rest
  }

  ghost predicate AllInts(members: seq<Bytes>) {
    forall i :: 0 <= i < |members| ==> I.Parse(members[i]).Some?
  }

  /** The encoding the whole list calls for. */
  ghost function Direct(members: seq<Bytes>, lim: Limits): Encoding {
    if AllInts(members) && |members| <= lim.maxInts then Ints
    else if |members| <= lim.maxEntries && MaxLen(members) <= lim.maxValue then Packed
    else Hashed
  }

  /** Repeated members do no harm, except in the packed form, which would hold them twice. */
  method NewSetFrom(members: seq<Bytes>, lim: Limits) returns (v: View)
    requires forall i :: 0 <= i < |members| ==> |members[i]| <= LP.MAX_LEN
    ensures v.value == Elements(members) && v.Encoding() == Direct(members, lim)
    ensures v.Valid() <==> Distinct(members) || Direct(members, lim) != Packed
  {
    hide I.Parse, Elements, View.Valid, MaxLen, AllInts, Distinct;
    var allInts, maxLen := Survey(members);
    if allInts && |members| <= lim.maxInts {
      v := IntsFrom(members);
    } else if |members| <= lim.maxEntries && maxLen <= lim.maxValue {
      v := PackedFrom(members);
    } else {
      v := HashedFrom(members);
    }
  }

  lemma MaxLenNone(members: seq<Bytes>)
    ensures MaxLen(members[..0]) == 0
  {
  }

  lemma MaxLenNext(members: seq<Bytes>, i: nat)
    requires i < |members|
    ensures var n := MaxLen(members[..i]);
            MaxLen(members[..i + 1]) == if |members[i]| > n then |members[i]| else n
  {
    assert members[..i + 1][..i] == members[..i];
  }

  method Survey(members: seq<Bytes>) returns (allInts: bool, maxLen: nat)
    ensures maxLen == MaxLen(members) && (allInts <==> AllInts(members))
  {
    hide I.Parse, MaxLen;
    allInts, maxLen := true, 0;
    var i := 0;
    MaxLenNone(members);
    while i < |members|
      invariant 0 <= i <= |members| && maxLen == MaxLen(members[..i])
      invariant allInts <==> forall k :: 0 <= k < i ==> I.Parse(members[k]).Some?
    {
      MaxLenNext(members, i);
      if I.Parse(members[i]).None? { allInts := false; }
      if |members[i]| > maxLen { maxLen := |members[i]|; }
      i := i + 1;
    }
    assert members[..i] == members;
  }

  method IntsFrom(members: seq<Bytes>) returns (v: View)
    requires AllInts(members)
    ensures v.Valid() && v.value == Elements(members) && v.Encoding() == Ints
  {
    hide I.Parse, Elements, View.Valid;
    v := new View();
    var i := 0;
    ElementsStart({}, members);
    while i < |members|
      invariant 0 <= i <= |members| && fresh(v) && v.ints != null && fresh(v.ints) && v.Valid() && v.Encoding() == Ints
      invariant v.value == {} + Elements(members[..i])
    {
      ElementsNext({}, members, i);
      var n := I.Parse(members[i]);
      v.AddInt(n.value, members[i]);
      i := i + 1;
    }
    assert members[..i] == members && {} + Elements(members) == Elements(members);
  }

  method PackedFrom(members: seq<Bytes>) returns (v: View)
    requires forall i :: 0 <= i < |members| ==> |members[i]| <= LP.MAX_LEN
    ensures v.value == Elements(members) && v.Encoding() == Packed
    ensures v.Valid() <==> Distinct(members)
  {
    hide LP.Listpack.Valid;
    v := new View();
    v.lp := L.ListpackOf(members);
    v.ints := null;
    v.value := Elements(members);
  }

  method HashedFrom(members: seq<Bytes>) returns (v: View)
    ensures v.Valid() && v.value == Elements(members) && v.Encoding() == Hashed
  {
    var s: set<Bytes> := {};
    var i := 0;
    while i < |members|
      invariant 0 <= i <= |members| && s == Elements(members[..i])
    {
      ElementsNext({}, members, i);
      assert {} + Elements(members[..i]) == Elements(members[..i]) && {} + Elements(members[..i + 1]) == Elements(members[..i + 1]);
      s := s + {members[i]};
      i := i + 1;
    }
    assert members[..i] == members;
    v := new View();
    v.ints, v.hashed, v.value := null, Some(s), s;
  }

  lemma NotYet(members: seq<Bytes>, i: nat)
    requires Distinct(members) && i < |members|
    ensures members[i] !in Elements(members[..i])
  {
  }

  lemma CountSoFar(members: seq<Bytes>, i: nat)
    requires Distinct(members) && i <= |members|
    ensures |Elements(members[..i])| == i
  {
    NamesSize(members[..i], Elements(members[..i]));
  }

  // ---------------------------------------------------------------------------
  // Member by member.

  /** Whether the integer encoding takes member `i`, all before it having been taken. */
  ghost predicate Takes(members: seq<Bytes>, i: nat, lim: Limits)
    requires i < |members|
  {
    I.Parse(members[i]).Some? && i < lim.maxInts
  }

  /** How many leading members, from `k` on, the integer encoding takes. */
  ghost function Lead(members: seq<Bytes>, k: nat, lim: Limits): (n: nat)
    requires k <= |members|
    ensures k <= n <= |members|
    ensures forall i :: k <= i < n ==> Takes(members, i, lim)
    ensures n < |members| ==> !Takes(members, n, lim)
    decreases |members| - k
  {
    hide I.Parse;
    if k < |members| && Takes(members, k, lim) then Lead(members, k + 1, lim) else k
  }

  ghost predicate Short(members: seq<Bytes>, from: nat, to: nat, lim: Limits)
    requires to <= |members|
  {
    forall i :: from <= i < to ==> |members[i]| <= lim.maxValue
  }

  lemma Step(enc: Encoding, members: seq<Bytes>, k: nat, lim: Limits)
    requires Distinct(members) && k < |members|
    ensures Ends(enc, Elements(members[..k]), members[k..], lim) ==
            Ends(Next(enc, k, members[k], lim), Elements(members[..k + 1]), members[k + 1..], lim)
  {
    hide Ends, Next, Elements;
    NotYet(members, k);
    CountSoFar(members, k);
    EndsNext(enc, Elements(members[..k]), members, k, lim);
    ElementsNext({}, members, k);
    assert {} + Elements(members[..k]) == Elements(members[..k]) && {} + Elements(members[..k + 1]) == Elements(members[..k + 1]);
  }

  lemma {:induction false} HashedStays(members: seq<Bytes>, k: nat, lim: Limits)
    requires Distinct(members) && k <= |members|
    ensures Ends(Hashed, Elements(members[..k]), members[k..], lim) == Hashed
    decreases |members| - k
  {
    hide Elements, I.Parse;
    if k < |members| {
      Step(Hashed, members, k, lim);
      HashedStays(members, k + 1, lim);
    }
  }

  lemma {:induction false} PackedEnds(members: seq<Bytes>, k: nat, lim: Limits)
    requires Distinct(members) && k <= |members|
    ensures Ends(Packed, Elements(members[..k]), members[k..], lim) ==
            if k == |members| || (|members| <= lim.maxEntries && Short(members, k, |members|, lim)) then Packed else Hashed
    decreases |members| - k
  {
    hide Elements, I.Parse;
    if k < |members| {
      Step(Packed, members, k, lim);
      if FitsPacked(members[k], k, lim) { PackedEnds(members, k + 1, lim); } else { HashedStays(members, k + 1, lim); }
    }
  }

  lemma {:induction false} IntsEnd(members: seq<Bytes>, k: nat, lim: Limits)
    requires Distinct(members) && k <= |members|
    ensures var lead := Lead(members, k, lim);
            Ends(Ints, Elements(members[..k]), members[k..], lim) ==
            if lead == |members| then Ints
            else if |members| <= lim.maxEntries && Short(members, lead, |members|, lim) then Packed else Hashed
    decreases |members| - k
  {
    hide Elements, I.Parse;
    if k < |members| {
      Step(Ints, members, k, lim);
      if I.Parse(members[k]).Some? && k < lim.maxInts {
        IntsEnd(members, k + 1, lim);
      } else if FitsPacked(members[k], k, lim) {
        PackedEnds(members, k + 1, lim);
      } else {
        HashedStays(members, k + 1, lim);
      }
    }
  }

  /** The encoding of a new set after these members have been added one by one. */
  ghost function OneByOne(members: seq<Bytes>, lim: Limits): Encoding {
    Ends(Ints, {}, members, lim)
  }

  /**
   * The two ways of building a set disagree exactly when the set leaves the integer encoding for a
   * listpack that takes every later member, while an integer that came before is too long for it.
   */
  lemma AgreeIff(members: seq<Bytes>, lim: Limits)
    requires Distinct(members) && members != []
    ensures var lead := Lead(members, 0, lim);
            OneByOne(members, lim) == Direct(members, lim) <==>
            !(lead < |members| <= lim.maxEntries && Short(members, lead, |members|, lim) && !Short(members, 0, lead, lim))
  {
    hide I.Parse, Ends, MaxLen;
    var lead := Lead(members, 0, lim);
    IntsEnd(members, 0, lim);
    assert members[..0] == [] && members[0..] == members && Elements([]) == {};
    LeadIsAll(members, lim);
    MaxIsBound(members, lim);
  }

  lemma LeadIsAll(members: seq<Bytes>, lim: Limits)
    requires members != []
    ensures Lead(members, 0, lim) == |members| <==> AllInts(members) && |members| <= lim.maxInts
  {
    hide I.Parse;
    var lead := Lead(members, 0, lim);
    if lead == |members| {
      assert Takes(members, lead - 1, lim);
      forall i | 0 <= i < |members| ensures I.Parse(members[i]).Some? { assert Takes(members, i, lim); }
    } else if AllInts(members) {
      assert I.Parse(members[lead]).Some?;
    }
  }

  lemma MaxIsBound(members: seq<Bytes>, lim: Limits)
    requires members != []
    ensures MaxLen(members) <= lim.maxValue <==> Short(members, 0, |members|, lim)
  {
    hide MaxLen;
    if MaxLen(members) == 0 { assert |members[0]| == 0; }
  }

  /** With room for every printed integer they always agree. */
  lemma AgreeWithRoom(members: seq<Bytes>, lim: Limits)
    requires Distinct(members) && members != [] && lim.maxValue >= 20
    ensures OneByOne(members, lim) == Direct(members, lim)
  {
    hide I.Parse, MaxLen, OneByOne, Direct;
    AgreeIff(members, lim);
    forall i | 0 <= i < Lead(members, 0, lim) ensures |members[i]| <= lim.maxValue {
      assert Takes(members, i, lim);
      I.ParsedLength(members[i]);
    }
  }

  /** Below that they need not: 10 joins as an integer, then "a" brings a listpack for one-byte values. */
  lemma NoRoomDisagrees()
    ensures var members, lim := [[49, 48], [97]], Limits(512, 128, 1);
            OneByOne(members, lim) == Packed && Direct(members, lim) == Hashed
  {
    var members: seq<Bytes>, lim := [[49, 48], [97]], Limits(512, 128, 1);
    I.ParseIffFormat([49, 48], 10);
    assert Decimal.Digits(10) == Decimal.Digits(1) + [48] && Decimal.Digits(1) == [49];
    assert I.Parse([97]).None?;
    hide I.Parse, Ends, MaxLen;
    assert Lead(members, 0, lim) == 1;
    IntsEnd(members, 0, lim);
    assert members[..0] == [] && members[0..] == members && Elements([]) == {};
    MaxIsBound(members, lim);
    assert |members[0]| == 2;
  }

  /** A member listed twice ends up twice in a listpack. */
  method RepeatedMemberTwice(lim: Limits) returns (v: View)
    requires lim.maxEntries >= 2 && lim.maxValue >= 1
    ensures v.value == {[97]} && !v.Valid()
  {
    hide View.Valid;
    var members: seq<Bytes> := [[97], [97]];
    assert members[0] == members[1] && I.Parse(members[0]).None?;
    MaxIsBound(members, lim);
    v := NewSetFrom(members, lim);
  }

  /** Both builders, side by side: the same members, and the same encoding when they agree. */
  method BuildBoth(members: seq<Bytes>, lim: Limits) returns (v: View, w: View)
    requires Distinct(members) && members != [] && lim.maxValue >= 20
    requires forall i :: 0 <= i < |members| ==> |members[i]| <= LP.MAX_LEN
    ensures v.Valid() && w.Valid() && v.value == w.value == Elements(members) && v.Encoding() == w.Encoding()
  {
    hide View.Valid, OneByOne, Direct;
    w := NewSetFrom(members, lim);
    AgreeWithRoom(members, lim);
    v := new View();
    var _ := v.Add(members, lim);
    assert {} + Elements(members) == Elements(members);
    OneByOneIs(members, lim);
  }

  lemma OneByOneIs(members: seq<Bytes>, lim: Limits)
    ensures OneByOne(members, lim) == Ends(Ints, {}, members, lim)
  {
  }
}
