/** The large hash: pairs in a row up to 64 of them, a table after. */
module Dict {
  import opened Base
  import opened Pairs

  const MAX_PAIRS: nat := 64

  class Dict {
    var pairs: seq<Pair>
    var table: Option<map<Bytes, Bytes>>
    ghost var value: map<Bytes, Bytes>

    ghost predicate Valid()
      reads this
    {
      match table
      case Some(m) => m == value && pairs == []
      case None => Holds(pairs, value) && |pairs| <= MAX_PAIRS
    }

    constructor ()
      ensures Valid() && value == map[]
    {
      pairs, table, value := [], None, map[];
    }

    /** The position of a key among the pairs, or their number. */
    method Search(key: Bytes) returns (i: nat)
      requires Valid() && table.None?
      ensures i <= |pairs| && (i < |pairs| <==> key in value) && (i < |pairs| ==> pairs[i].key == key)
    {
      i := 0;
      while i < |pairs|
        invariant 0 <= i <= |pairs| && forall k :: 0 <= k < i ==> pairs[k].key != key
      {
        if pairs[i].key == key { return; }
        i := i + 1;
      }
    }

    /** Fills the table from the pairs, one by one. */
    method Promote()
      requires Valid() && table.None?
      modifies this
      ensures Valid() && table.Some? && value == old(value)
    {
      var m: map<Bytes, Bytes> := map[];
      var i := 0;
      while i < |pairs|
        invariant 0 <= i <= |pairs|
        invariant forall k :: 0 <= k < i ==> pairs[k].key in m
        invariant forall k :: k in m ==> k in value && m[k] == value[k]
        modifies {}
      {
        m := m[pairs[i].key := pairs[i].value];
        i := i + 1;
      }
      assert m == value;
      table, pairs := Some(m), [];
    }

    method Set(key: Bytes, val: Bytes) returns (isNew: bool)
      requires Valid()
      modifies this
      ensures Valid() && value == old(value)[key := val] && isNew == (key !in old(value))
    {
      hide Holds;
      if table.Some? {
        isNew := key !in table.value;
        table := Some(table.value[key := val]);
        value := value[key := val];
        return;
      }
      var i := Search(key);
      if i < |pairs| {
        HoldsReplaced(pairs, value, i, val);
        pairs := pairs[i := Pair(pairs[i].key, val)];
        value := value[key := val];
        return false;
      }
      if |pairs| >= MAX_PAIRS {
        Promote();
        table := Some(table.value[key := val]);
        value := value[key := val];
        return true;
      }
      HoldsAppended(pairs, value, Pair(key, val));
      pairs := pairs + [Pair(key, val)];
      value := value[key := val];
      return true;
    }

    method Get(key: Bytes) returns (r: Option<Bytes>)
      requires Valid()
      ensures r == if key in value then Some(value[key]) else None
    {
      if table.Some? { return if key in table.value then Some(table.value[key]) else None; }
      var i := Search(key);
      return if i < |pairs| then Some(pairs[i].value) else None;
    }

    method Del(key: Bytes) returns (existed: bool)
      requires Valid()
      modifies this
      ensures Valid() && value == old(value) - {key} && existed == (key in old(value))
    {
      hide Holds;
      if table.Some? {
        existed := key in table.value;
        table, value := Some(table.value - {key}), value - {key};
        return;
      }
      var i := Search(key);
      if i < |pairs| {
        HoldsRemoved(pairs, value, i);
        pairs := pairs[..i] + pairs[i + 1..];
        value := value - {key};
        return true;
      }
      assert value - {key} == value;
      return false;
    }

    method Len() returns (n: nat)
      requires Valid()
      ensures n == |value|
    {
      hide Holds;
      if table.Some? { return |table.value|; }
      HoldsSize(pairs, value);
      return |pairs|;
    }
  }
}
