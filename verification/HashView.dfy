/** A hash behind two encodings: a listpack of fields and values while small, a dictionary after. */
module HashView {
  import opened Base
  import opened Pairs
  import D = Dict
  import LP = Listpack

  /** Whether a listpack must not take the pair. */
  predicate TooBig(value: map<Bytes, Bytes>, field: Bytes, val: Bytes, maxEntries: int, maxValue: int) {
    |val| > maxValue || |field| > maxValue || (field !in value && |value| >= maxEntries)
  }

  class View {
    var lp: LP.Listpack?
    var d: D.Dict?
    ghost var value: map<Bytes, Bytes>
    ghost var pairs: seq<Pair>   // what the listpack spells while there is one

    ghost predicate Valid()
      reads this, lp, d
    {
      && (lp == null <==> d != null)
      && (lp != null ==> lp.Valid() && lp.elems == Texts(pairs) && Holds(pairs, value))
      && (d != null ==> d.Valid() && d.value == value)
    }

    constructor ()
      ensures Valid() && fresh(lp) && d == null && value == map[]
    {
      lp := new LP.Listpack();
      d := null;
      value, pairs := map[], [];
    }

    /** The position of a field's text in the listpack, or -1. */
    method Find(field: Bytes) returns (i: int)
      requires Valid() && lp != null
      ensures i == -1 <==> field !in value
      ensures i != -1 ==> i >= 0 && i % 2 == 0 && i / 2 < |pairs| && pairs[i / 2].key == field
    {
      hide LP.Pack, Texts;
      ghost var at := 0;
      if field in value {
        var k :| 0 <= k < |pairs| && pairs[k].key == field;
        at := 2 * k;
        assert LP.Listpack.Visits(at, 0, 2) && lp.elems[at] == field;
      }
      i := lp.Find(field, 0, 2);
      if i != -1 {
        ghost var k := i / 2;
        assert i == 2 * k && pairs[k].key == field;
      }
    }

    method Len() returns (n: int)
      requires Valid()
      ensures n == |value|
    {
      hide LP.Pack, Texts, Holds, D.Dict.Valid;
      if d != null {
        n := d.Len();
      } else {
        HoldsSize(pairs, value);
        n := lp.n / 2;
      }
    }

    method Get(field: Bytes) returns (r: Option<Bytes>)
      requires Valid()
      ensures r == if field in value then Some(value[field]) else None
    {
      hide LP.Listpack.Valid, Texts, D.Dict.Valid;
      if d != null {
        r := d.Get(field);
        return;
      }
      var i := Find(field);
      if i < 0 { return None; }
      ghost var k := i / 2;
      assert i == 2 * k;
      r := lp.Get(i + 1);
    }

    method ShouldPromote(field: Bytes, val: Bytes, maxEntries: int, maxValue: int) returns (yes: bool)
      requires Valid() && lp != null
      ensures yes <==> TooBig(value, field, val, maxEntries, maxValue)
    {
      hide LP.Pack, Texts, Holds;
      if |val| > maxValue || |field| > maxValue { return true; }
      var i := Find(field);
      if i >= 0 { return false; }
      HoldsSize(pairs, value);
      return lp.n / 2 >= maxEntries;
    }

    /** Moves the pairs to a dictionary, which may outgrow its own row of pairs on the way. */
    method Promote()
      requires Valid() && lp != null
      modifies this
      ensures Valid() && d != null && fresh(d) && lp == null && value == old(value)
    {
      hide LP.Listpack.Valid, Texts, D.Dict.Valid, Holds;
      var all := lp.All();
      d := DictOf(all, pairs, value);
      lp := null;
    }

    method Set(field: Bytes, val: Bytes, maxEntries: int, maxValue: int) returns (isNew: bool)
      requires Valid() && |field| <= LP.MAX_LEN && |val| <= LP.MAX_LEN
      modifies this, lp, d
      ensures Valid() && (lp == old(lp) || lp == null) && (d == old(d) || fresh(d))
      ensures value == old(value)[field := val] && isNew == (field !in old(value))
      ensures d == null <==> old(d) == null && !TooBig(old(value), field, val, maxEntries, maxValue)
    {
      hide LP.Listpack.Valid, Texts, Holds, D.Dict.Valid, TooBig;
      if d == null {
        var promote := ShouldPromote(field, val, maxEntries, maxValue);
        if promote { Promote(); }
      }
      if d != null {
        isNew := d.Set(field, val);
        value := value[field := val];
        return;
      }
      var i := Find(field);
      if i >= 0 {
        ghost var k := i / 2;
        assert i == 2 * k;
        TextsReplaced(pairs, k, val);
        HoldsReplaced(pairs, value, k, val);
        var _ := lp.ReplaceAt(i + 1, val);
        pairs, value := pairs[k := Pair(pairs[k].key, val)], value[field := val];
        return false;
      }
      TextsAppended(pairs, Pair(field, val));
      HoldsAppended(pairs, value, Pair(field, val));
      lp.Append(field);
      lp.Append(val);
      pairs, value := pairs + [Pair(field, val)], value[field := val];
      return true;
    }

    method Del(field: Bytes) returns (existed: bool)
      requires Valid()
      modifies this, lp, d
      ensures Valid() && lp == old(lp) && d == old(d)
      ensures value == old(value) - {field} && existed == (field in old(value))
    {
      hide LP.Listpack.Valid, Texts, Holds, D.Dict.Valid;
      if d != null {
        existed := d.Del(field);
        value := value - {field};
        return;
      }
      var i := Find(field);
      if i < 0 {
        assert value - {field} == value;
        return false;
      }
      ghost var k := i / 2;
      assert i == 2 * k;
      TextsRemoved(pairs, k);
      HoldsRemoved(pairs, value, k);
      var _ := lp.DeleteRange(i, 2);
      pairs, value := pairs[..k] + pairs[k + 1..], value - {field};
      return true;
    }
  }

  /** The dictionary has taken over the first `n` pairs. */
  ghost predicate Taken(m: map<Bytes, Bytes>, pairs: seq<Pair>, value: map<Bytes, Bytes>, n: nat)
    requires n <= |pairs|
  {
    && (forall k :: 0 <= k < n ==> pairs[k].key in m)
    && (forall k :: k in m ==> k in value && m[k] == value[k])
  }

  lemma TakenNext(m: map<Bytes, Bytes>, pairs: seq<Pair>, value: map<Bytes, Bytes>, n: nat)
    requires Holds(pairs, value) && n < |pairs| && Taken(m, pairs, value, n)
    ensures Taken(m[pairs[n].key := pairs[n].value], pairs, value, n + 1)
  {
  }

  lemma TakenAll(m: map<Bytes, Bytes>, pairs: seq<Pair>, value: map<Bytes, Bytes>)
    requires Holds(pairs, value) && Taken(m, pairs, value, |pairs|)
    ensures m == value
  {
    forall k | k in value ensures k in m {
      var i :| 0 <= i < |pairs| && pairs[i].key == k;
    }
  }

  /** Field and value alternate in the texts. */
  method DictOf(all: seq<Bytes>, ghost pairs: seq<Pair>, ghost value: map<Bytes, Bytes>) returns (dict: D.Dict)
    requires all == Texts(pairs) && Holds(pairs, value)
    ensures fresh(dict) && dict.Valid() && dict.value == value
  {
    hide Texts, D.Dict.Valid, Holds, Taken;
    dict := new D.Dict();
    var field: Bytes := [];
    var i := 0;
    TakenNone(pairs, value);
    while i < |all|
      invariant 0 <= i <= |all| == 2 * |pairs| && fresh(dict) && dict.Valid()
      invariant i % 2 == 1 ==> field == pairs[i / 2].key
      invariant Taken(dict.value, pairs, value, i / 2)
    {
      ghost var k := i / 2;
      assert i == 2 * k || i == 2 * k + 1;
      if i % 2 == 0 {
        field := all[i];
      } else {
        TakenNext(dict.value, pairs, value, k);
        var _ := dict.Set(field, all[i]);
      }
      i := i + 1;
    }
    TakenAll(dict.value, pairs, value);
  }

  lemma TakenNone(pairs: seq<Pair>, value: map<Bytes, Bytes>)
    ensures Taken(map[], pairs, value, 0)
  {
  }

  // ---------------------------------------------------------------------------
  // Whole runs.

  datatype Op = Set(field: Bytes, val: Bytes, maxEntries: int, maxValue: int) | Del(field: Bytes)

  function Replay(ops: seq<Op>): map<Bytes, Bytes> {
    if ops == [] then map[]
    else
      var m := Replay(ops[..|ops| - 1]);
      match ops[|ops| - 1]
      case Set(field, val, _, _) => m[field := val]
      case Del(field) => m - {field}
  }

  /** Whatever thresholds each step finds, the hash is the replayed map. */
  method Run(ops: seq<Op>) returns (v: View)
    requires forall i :: 0 <= i < |ops| && ops[i].Set? ==> |ops[i].field| <= LP.MAX_LEN && |ops[i].val| <= LP.MAX_LEN
    ensures v.Valid() && v.value == Replay(ops)
  {
    hide View.Valid;
    v := new View();
    var i := 0;
    while i < |ops|
      invariant 0 <= i <= |ops| && v.Valid() && v.value == Replay(ops[..i])
      invariant fresh(v) && (v.lp == null || fresh(v.lp)) && (v.d == null || fresh(v.d))
    {
      assert ops[..i + 1][..i] == ops[..i];
      match ops[i] {
        case Set(field, val, maxEntries, maxValue) => var _ := v.Set(field, val, maxEntries, maxValue);
        case Del(field) => var _ := v.Del(field);
      }
      i := i + 1;
    }
    assert ops[..i] == ops;
  }
}
