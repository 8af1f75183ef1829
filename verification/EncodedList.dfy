/** Building a list in one go, as a snapshot load does, against pushing it element by element. */
module EncodedList {
  import opened Base
  import opened ListView
  import LP = Listpack
  import Q = Quicklist

  ghost predicate Short(items: seq<Bytes>) {
    forall e :: e in items ==> |e| <= MAX_VALUE
  }

  /** Whether the whole list calls for a listpack. */
  ghost predicate Compact(items: seq<Bytes>, limit: int) {
    Short(items) && if limit >= 0 then |items| <= limit else Total(items) <= Budget(limit)
  }

  method NewListFrom(items: seq<Bytes>, limit: int) returns (v: View)
    requires forall e :: e in items ==> |e| <= LP.MAX_LEN
    ensures v.Valid() && v.value == items && (v.ql == null <==> Compact(items, limit))
  {
    hide LP.Listpack.Valid, Q.Quicklist.Valid;
    var total, maxLen, i := 0, 0, 0;
    while i < |items|
      invariant 0 <= i <= |items| && total == Total(items[..i]) && maxLen >= 0
      invariant forall k :: 0 <= k < i ==> |items[k]| <= maxLen
      invariant maxLen == 0 || exists k :: 0 <= k < i && |items[k]| == maxLen
    {
      assert items[..i + 1][..i] == items[..i];
      total := total + |items[i]| + 2;
      if |items[i]| > maxLen { maxLen := |items[i]|; }
      i := i + 1;
    }
    assert items[..i] == items;
    v := new View();
    v.value := items;
    if maxLen <= MAX_VALUE && if limit >= 0 then |items| <= limit else total <= Budget(limit) {
      v.lp := ListpackOf(items);
    } else {
      v.ql := QuicklistOf(items);
      v.lp := null;
    }
  }

  /** Whether a listpack survives pushing the elements one by one. */
  ghost predicate Survives(items: seq<Bytes>, limit: int) {
    items == [] ||
    var n := |items| - 1;
    Survives(items[..n], limit) && !TooBig(items[..n], items[n], limit)
  }

  method PushAll(items: seq<Bytes>, limit: int) returns (v: View)
    requires forall e :: e in items ==> |e| <= LP.MAX_LEN
    ensures v.Valid() && v.value == items && (v.ql == null <==> Survives(items, limit))
  {
    hide View.Valid, TooBig;
    v := new View();
    var i := 0;
    while i < |items|
      invariant 0 <= i <= |items| && v.Valid() && v.value == items[..i] && (v.ql == null <==> Survives(items[..i], limit))
      invariant fresh(v) && (v.lp == null || fresh(v.lp)) && (v.ql == null || fresh(v.ql)) && fresh(v.Nodes())
    {
      assert items[..i + 1][..i] == items[..i];
      v.RPush(items[i], limit);
      i := i + 1;
    }
    assert items[..i] == items;
  }

  /** A short element takes one byte more than its own; the total allows two. */
  lemma {:induction false} PackedSize(items: seq<Bytes>)
    requires Short(items)
    ensures |LP.Pack(items)| + |items| == Total(items)
    decreases |items|
  {
    if items != [] {
      var n := |items| - 1;
      assert items == items[..n] + [items[n]];
      LP.PackConcat(items[..n], [items[n]]);
      LP.PackOne(items[n]);
      PackedSize(items[..n]);
    }
  }

  lemma {:induction false} SurvivesIff(items: seq<Bytes>, limit: int)
    ensures Survives(items, limit) <==>
            Short(items) && if limit >= 0 then |items| <= limit else items == [] || Total(items) - |items| - 1 <= Budget(limit)
    decreases |items|
  {
    hide LP.Pack, Budget;
    if items != [] {
      var n := |items| - 1;
      assert items == items[..n] + [items[n]];
      SurvivesIff(items[..n], limit);
      if Short(items[..n]) { PackedSize(items[..n]); }
      TotalPositive(items[..n]);
    }
  }

  lemma {:induction false} TotalPositive(items: seq<Bytes>)
    ensures Total(items) >= 2 * |items|
    decreases |items|
  {
    if items != [] { TotalPositive(items[..|items| - 1]); }
  }

  /** The two end in the same encoding unless the bytes fit as they are pushed and not as they are added up. */
  lemma AgreeIff(items: seq<Bytes>, limit: int)
    ensures (Survives(items, limit) <==> Compact(items, limit)) <==>
            !(limit < 0 && items != [] && Short(items) && Total(items) - |items| - 1 <= Budget(limit) < Total(items))
  {
    hide Budget, Survives, Short;
    SurvivesIff(items, limit);
  }

  /** 3000 elements of one byte stay a listpack as they are pushed, and come back as a quicklist. */
  lemma ManyShortDisagree()
    ensures var items: seq<Bytes> := seq(3000, _ => [97]); Survives(items, -2) && !Compact(items, -2)
  {
    var items: seq<Bytes> := seq(3000, _ => [97]);
    TotalOfBytes(items);
    SurvivesIff(items, -2);
    hide Survives, Total;
  }

  lemma {:induction false} TotalOfBytes(items: seq<Bytes>)
    requires forall e :: e in items ==> |e| == 1
    ensures Total(items) == 3 * |items|
    decreases |items|
  {
    if items != [] { TotalOfBytes(items[..|items| - 1]); }
  }

  /** Both builders, side by side: the same list, and the same encoding if and only if they agree. */
  method BuildBoth(items: seq<Bytes>, limit: int) returns (v: View, w: View)
    requires forall e :: e in items ==> |e| <= LP.MAX_LEN
    ensures v.Valid() && w.Valid() && v.value == w.value == items
    ensures (v.ql == null <==> w.ql == null) <==>
            !(limit < 0 && items != [] && Short(items) && Total(items) - |items| - 1 <= Budget(limit) < Total(items))
  {
    hide LP.Listpack.Valid, Survives, Compact, Short;
    v := PushAll(items, limit);
    w := NewListFrom(items, limit);
    AgreeIff(items, limit);
  }
}
