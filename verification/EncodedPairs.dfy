/** Building a hash or a sorted set in one go, as a snapshot load does, against entry by entry. */
module EncodedPairs {
  import opened Base
  import opened SortedElements
  import H = HashView
  import L = ListView
  import LP = Listpack
  import P = Pairs
  import V = ZSetView

  // ---------------------------------------------------------------------------
  // Hashes.

  /** Whether the whole listing calls for a listpack. */
  ghost predicate HashFits(ps: seq<P.Pair>, maxEntries: int, maxValue: int) {
    |ps| <= maxEntries && 0 <= maxValue && forall i :: 0 <= i < |ps| ==> |ps[i].key| <= maxValue && |ps[i].value| <= maxValue
  }

  ghost predicate HashStorable(ps: seq<P.Pair>) {
    forall i :: 0 <= i < |ps| ==> |ps[i].key| <= LP.MAX_LEN && |ps[i].value| <= LP.MAX_LEN
  }

  /** Repeated fields do no harm, except in the packed form, which would hold them twice. */
  method NewHashFrom(ps: seq<P.Pair>, maxEntries: int, maxValue: int) returns (v: H.View)
    requires HashStorable(ps)
    ensures v.d == null <==> HashFits(ps, maxEntries, maxValue)
    ensures v.value == P.PairMap(ps)
    ensures v.Valid() <==> P.Distinct(ps) || !HashFits(ps, maxEntries, maxValue)
  {
    var maxLen := 0;
    var i := 0;
    while i < |ps|
      invariant 0 <= i <= |ps| && maxLen >= 0
      invariant forall k :: 0 <= k < i ==> |ps[k].key| <= maxLen && |ps[k].value| <= maxLen
      invariant maxLen == 0 || exists k :: 0 <= k < i && (|ps[k].key| == maxLen || |ps[k].value| == maxLen)
    {
      if |ps[i].key| > maxLen { maxLen := |ps[i].key|; }
      if |ps[i].value| > maxLen { maxLen := |ps[i].value|; }
      i := i + 1;
    }
    if |ps| <= maxEntries && maxLen <= maxValue {
      v := PackedHash(ps);
    } else {
      v := HashTable(ps);
    }
  }

  method PackedHash(ps: seq<P.Pair>) returns (v: H.View)
    requires HashStorable(ps)
    ensures v.d == null && v.value == P.PairMap(ps) && (v.Valid() <==> P.Distinct(ps))
  {
    hide LP.Listpack.Valid, P.Texts, P.Holds, P.Distinct, HashStorable;
    TextsShort(ps);
    HeldIff(ps);
    var lp := L.ListpackOf(P.Texts(ps));
    v := new H.View();
    v.lp := lp;
    v.value, v.pairs := P.PairMap(ps), ps;
  }

  lemma HeldIff(ps: seq<P.Pair>)
    ensures P.Holds(ps, P.PairMap(ps)) <==> P.Distinct(ps)
  {
    if P.Distinct(ps) { P.PairMapHeld(ps); }
  }

  lemma TextsShort(ps: seq<P.Pair>)
    requires HashStorable(ps)
    ensures forall e :: e in P.Texts(ps) ==> |e| <= LP.MAX_LEN
  {
    var t := P.Texts(ps);
    hide P.Texts;
    forall e | e in t ensures |e| <= LP.MAX_LEN {
      var j :| 0 <= j < |t| && t[j] == e;
      var k := j / 2;
      assert j == 2 * k || j == 2 * k + 1;
      assert t[2 * k] == ps[k].key && t[2 * k + 1] == ps[k].value;
    }
  }

  method HashTable(ps: seq<P.Pair>) returns (v: H.View)
    ensures v.d != null && v.value == P.PairMap(ps) && v.Valid()
  {
    hide H.D.Dict.Valid;
    var d := new H.D.Dict();
    var i := 0;
    while i < |ps|
      invariant 0 <= i <= |ps| && fresh(d) && d.Valid() && d.value == P.PairMap(ps[..i])
    {
      assert ps[..i + 1][..i] == ps[..i];
      var _ := d.Set(ps[i].key, ps[i].value);
      i := i + 1;
    }
    assert ps[..i] == ps;
    v := new H.View();
    v.lp, v.d, v.value := null, d, d.value;
  }

  /** HSET of one field after the other. */
  method SetAll(ps: seq<P.Pair>, maxEntries: int, maxValue: int) returns (v: H.View)
    requires P.Distinct(ps) && HashStorable(ps)
    ensures v.Valid() && v.value == P.PairMap(ps)
    ensures ps != [] ==> (v.d == null <==> HashFits(ps, maxEntries, maxValue))
  {
    hide H.View.Valid, P.Distinct, H.TooBig, HashFits;
    v := new H.View();
    var i := 0;
    while i < |ps|
      invariant 0 <= i <= |ps| && v.Valid() && v.value == P.PairMap(ps[..i])
      invariant fresh(v) && (v.lp == null || fresh(v.lp)) && (v.d == null || fresh(v.d))
      invariant if i == 0 then v.d == null else v.d == null <==> HashFits(ps[..i], maxEntries, maxValue)
    {
      assert ps[..i + 1][..i] == ps[..i];
      HashFitsNext(ps, i, maxEntries, maxValue);
      var _ := v.Set(ps[i].key, ps[i].value, maxEntries, maxValue);
      i := i + 1;
    }
    assert ps[..i] == ps;
  }

  lemma HashFitsNext(ps: seq<P.Pair>, i: nat, maxEntries: int, maxValue: int)
    requires P.Distinct(ps) && i < |ps|
    ensures HashFits(ps[..i + 1], maxEntries, maxValue) <==>
            (i == 0 || HashFits(ps[..i], maxEntries, maxValue))
            && !H.TooBig(P.PairMap(ps[..i]), ps[i].key, ps[i].value, maxEntries, maxValue)
  {
    NextField(ps, i);
    HashFitsSnoc(ps, i, maxEntries, maxValue);
    hide P.PairMap, P.Distinct, HashFits;
  }

  lemma NextField(ps: seq<P.Pair>, i: nat)
    requires P.Distinct(ps) && i < |ps|
    ensures |P.PairMap(ps[..i])| == i && ps[i].key !in P.PairMap(ps[..i])
  {
    P.PairMapHeld(ps[..i]);
    hide P.PairMap;
    P.HoldsSize(ps[..i], P.PairMap(ps[..i]));
  }

  lemma HashFitsSnoc(ps: seq<P.Pair>, i: nat, maxEntries: int, maxValue: int)
    requires i < |ps|
    ensures HashFits(ps[..i + 1], maxEntries, maxValue) <==>
            (i == 0 || HashFits(ps[..i], maxEntries, maxValue)) && i < maxEntries && |ps[i].key| <= maxValue && |ps[i].value| <= maxValue
  {
    assert ps[..i + 1] == ps[..i] + [ps[i]];
  }

  /** Both builders, side by side: a hash that is not empty comes back in its encoding. */
  method BuildHashes(ps: seq<P.Pair>, maxEntries: int, maxValue: int) returns (v: H.View, w: H.View)
    requires P.Distinct(ps) && HashStorable(ps) && ps != []
    ensures v.Valid() && w.Valid() && v.value == w.value == P.PairMap(ps) && (v.d == null <==> w.d == null)
  {
    hide H.View.Valid, HashFits, P.Distinct;
    v := SetAll(ps, maxEntries, maxValue);
    w := NewHashFrom(ps, maxEntries, maxValue);
  }

  // ---------------------------------------------------------------------------
  // Sorted sets.

  ghost predicate ZSetFits(es: seq<Element>, maxEntries: int, maxValue: int) {
    |es| <= maxEntries && 0 <= maxValue && forall i :: 0 <= i < |es| ==> |es[i].member| <= maxValue
  }

  ghost predicate ZSetStorable(es: seq<Element>, format: Score -> Bytes, parse: V.Parse) {
    forall i :: 0 <= i < |es| ==> V.Writable(parse, format(es[i].score), es[i].score) && |es[i].member| <= LP.MAX_LEN
  }

  /** The entries are in order, as the caller promises. */
  method NewZSetFrom(es: seq<Element>, ghost value: map<Member, Score>, format: Score -> Bytes, parse: V.Parse,
                     maxEntries: int, maxValue: int, draws: nat -> nat)
      returns (v: V.View)
    requires Enumerates(es, value) && ZSetStorable(es, format, parse)
    ensures v.Valid() && v.value == value && (v.zs == null <==> ZSetFits(es, maxEntries, maxValue))
  {
    hide Enumerates, ZSetStorable;
    var maxLen := 0;
    var i := 0;
    while i < |es|
      invariant 0 <= i <= |es| && maxLen >= 0
      invariant forall k :: 0 <= k < i ==> |es[k].member| <= maxLen
      invariant maxLen == 0 || exists k :: 0 <= k < i && |es[k].member| == maxLen
    {
      if |es[i].member| > maxLen { maxLen := |es[i].member|; }
      i := i + 1;
    }
    if |es| <= maxEntries && maxLen <= maxValue {
      v := PackedZSet(es, value, format, parse);
    } else {
      v := SkipListZSet(es, value, parse, draws);
    }
  }

  method PackedZSet(es: seq<Element>, ghost value: map<Member, Score>, format: Score -> Bytes, parse: V.Parse) returns (v: V.View)
    requires Enumerates(es, value) && ZSetStorable(es, format, parse)
    ensures v.Valid() && v.value == value && v.zs == null
  {
    hide Enumerates, LP.Listpack.Valid, V.Texts, V.AllWritable, ZSetStorable, Spelt;
    SpeltWritable(es, value, format, parse);
    var texts := WriteTexts(es, value, format);
    var lp := L.ListpackOf(texts);
    v := new V.View(parse);
    v.lp := lp;
    v.value, v.spelt, v.list := value, Spelt(es, value, format), es;
  }

  method WriteTexts(es: seq<Element>, ghost value: map<Member, Score>, format: Score -> Bytes) returns (texts: seq<Bytes>)
    requires Enumerates(es, value)
    ensures texts == V.Texts(Spelt(es, value, format), es)
  {
    hide Enumerates, P.Texts, Spelt;
    ghost var ps := V.Written(Spelt(es, value, format), es);
    texts := [];
    var i := 0;
    P.TextsUnique([], []);
    while i < |es|
      invariant 0 <= i <= |es| && texts == P.Texts(ps[..i])
    {
      P.TextsAppended(ps[..i], ps[i]);
      assert ps[..i] + [ps[i]] == ps[..i + 1];
      SpeltIs(es, value, format, i);
      texts := texts + [es[i].member] + [format(es[i].score)];
      i := i + 1;
    }
    assert ps[..i] == ps;
  }

  /** The text of every member's score. */
  ghost function Spelt(es: seq<Element>, value: map<Member, Score>, format: Score -> Bytes): V.Spelling {
    map m | m in value :: format(value[m])
  }

  lemma SpeltIs(es: seq<Element>, value: map<Member, Score>, format: Score -> Bytes, i: nat)
    requires Enumerates(es, value) && i < |es|
    ensures V.TextOf(Spelt(es, value, format), es[i].member) == format(es[i].score)
    ensures es[i].member in Spelt(es, value, format)
  {
    V.FoundAt(es, value, i);
  }

  lemma SpeltWritable(es: seq<Element>, value: map<Member, Score>, format: Score -> Bytes, parse: V.Parse)
    requires Enumerates(es, value) && ZSetStorable(es, format, parse)
    ensures V.AllWritable(parse, Spelt(es, value, format), es)
    ensures forall e :: e in V.Texts(Spelt(es, value, format), es) ==> |e| <= LP.MAX_LEN
  {
    var spelt := Spelt(es, value, format);
    forall i | 0 <= i < |es| ensures es[i].member in spelt && V.TextOf(spelt, es[i].member) == format(es[i].score) {
      SpeltIs(es, value, format, i);
    }
    hide Enumerates, Spelt;
    var ps := V.Written(spelt, es);
    TextsShort(ps);
    hide V.Texts;
  }

  method SkipListZSet(es: seq<Element>, ghost value: map<Member, Score>, parse: V.Parse, draws: nat -> nat) returns (v: V.View)
    requires Enumerates(es, value)
    ensures v.Valid() && v.value == value && v.zs != null
  {
    hide Enumerates, V.Z.ZSet.Valid, V.Spells;
    var z := V.SkipListOf(es, draws, value);
    v := new V.View(parse);
    v.lp, v.zs := null, z;
    v.value, v.list := value, es;
  }

  /** ZADD of one member after the other, in any order. */
  method AddAll(es: seq<Element>, format: Score -> Bytes, parse: V.Parse, maxEntries: int, maxValue: int,
                draw: nat -> nat, draws: (nat, nat) -> nat)
      returns (v: V.View)
    requires DistinctMembers(es) && ZSetStorable(es, format, parse)
    ensures v.Valid() && v.value == MapOf(es)
    ensures es != [] ==> (v.zs == null <==> ZSetFits(es, maxEntries, maxValue))
  {
    hide V.View.Valid, V.Writable, DistinctMembers, V.TooBig, ZSetFits, MapOf;
    v := new V.View(parse);
    MapOfNone(es);
    var i := 0;
    while i < |es|
      invariant 0 <= i <= |es| && v.parse == parse && v.Valid() && v.value == MapOf(es[..i])
      invariant fresh(v) && (v.lp == null || fresh(v.lp)) && (v.zs == null || fresh(v.zs))
      invariant fresh(v.Skip()) && fresh(v.Nodes())
      invariant if i == 0 then v.zs == null else v.zs == null <==> ZSetFits(es[..i], maxEntries, maxValue)
    {
      MapOfNext(es, i);
      ZSetFitsNext(es, i, maxEntries, maxValue);
      var _, _ := v.Add(es[i].member, format(es[i].score), es[i].score, maxEntries, maxValue, draw(i), k => draws(i, k));
      i := i + 1;
    }
    assert es[..i] == es;
  }

  lemma ZSetFitsNext(es: seq<Element>, i: nat, maxEntries: int, maxValue: int)
    requires DistinctMembers(es) && i < |es|
    ensures ZSetFits(es[..i + 1], maxEntries, maxValue) <==>
            (i == 0 || ZSetFits(es[..i], maxEntries, maxValue)) && !V.TooBig(MapOf(es[..i]), es[i].member, maxEntries, maxValue)
  {
    MapOfSize(es[..i]);
    hide MapOf;
    assert es[..i + 1] == es[..i] + [es[i]];
  }

  /** Both builders: members added in any order, listed in order, come back in the same encoding. */
  method BuildZSets(es: seq<Element>, sorted: seq<Element>, format: Score -> Bytes, parse: V.Parse,
                    maxEntries: int, maxValue: int, draw: nat -> nat, draws: (nat, nat) -> nat)
      returns (v: V.View, w: V.View)
    requires DistinctMembers(es) && ZSetStorable(es, format, parse) && es != []
    requires Enumerates(sorted, MapOf(es)) && multiset(sorted) == multiset(es)
    ensures v.Valid() && w.Valid() && v.value == w.value == MapOf(es) && (v.zs == null <==> w.zs == null)
  {
    hide V.Spells, V.Z.ZSet.Valid, Enumerates, DistinctMembers;
    SameEntries(es, sorted, format, parse, maxEntries, maxValue);
    hide ZSetFits, ZSetStorable;
    v := AddAll(es, format, parse, maxEntries, maxValue, draw, draws);
    w := NewZSetFrom(sorted, MapOf(es), format, parse, maxEntries, maxValue, draw);
  }

  lemma SameEntries(es: seq<Element>, sorted: seq<Element>, format: Score -> Bytes, parse: V.Parse, maxEntries: int, maxValue: int)
    requires multiset(sorted) == multiset(es) && ZSetStorable(es, format, parse)
    ensures ZSetStorable(sorted, format, parse) && (ZSetFits(sorted, maxEntries, maxValue) <==> ZSetFits(es, maxEntries, maxValue))
  {
    hide V.Writable;
    assert |sorted| == |multiset(sorted)| == |multiset(es)| == |es|;
    forall i | 0 <= i < |sorted| ensures sorted[i] in es { assert sorted[i] in multiset(sorted); }
    forall i | 0 <= i < |es| ensures es[i] in sorted { assert es[i] in multiset(es); }
  }
}
