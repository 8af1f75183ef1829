/** Integers as set members: a sorted, duplicate-free row of 64-bit values. */
module IntSet {
  import opened Base
  import opened Decimal

  /** Only the canonical decimal form of a 64-bit integer counts as one. */
  function Parse(s: Bytes): Option<int> {
    if |s| == 0 || |s| > 20 then None
    else match ParseInt(s)
      case None => None
      case Some(n) => if FormatInt(n) == s then Some(n) else None
  }

  predicate InRange(n: int) { MIN_INT64 <= n <= MAX_INT64 }

  function Pow10(k: nat): nat {
    if k == 0 then 1 else 10 * Pow10(k - 1)
  }

  lemma {:induction false} DigitsFit(n: nat, k: nat)
    requires k > 0 && n < Pow10(k)
    ensures |Digits(n)| <= k
    decreases k
  {
    if n >= 10 {
      assert k > 1;
      assert n / 10 < Pow10(k - 1);
      DigitsFit(n / 10, k - 1);
    }
  }

  lemma FormatFits(n: int)
    requires InRange(n)
    ensures 1 <= |FormatInt(n)| <= 20
  {
    assert Pow10(6) == 1_000_000;
    assert Pow10(12) == 1_000_000 * 1_000_000;
    assert Pow10(19) == 10_000_000 * Pow10(12);
    DigitsFit(if n < 0 then -n else n, 19);
  }

  /** The members this encoding can hold are exactly the printed forms of 64-bit integers. */
  lemma ParseIffFormat(s: Bytes, n: int)
    ensures Parse(s) == Some(n) <==> InRange(n) && s == FormatInt(n)
  {
    if InRange(n) {
      ParseFormat(n);
      FormatFits(n);
    }
  }

  lemma ParsedLength(s: Bytes)
    ensures Parse(s).Some? ==> 1 <= |s| <= 20 && InRange(Parse(s).value) && s == FormatInt(Parse(s).value)
  {
    if Parse(s).Some? { ParseIffFormat(s, Parse(s).value); }
  }

  ghost predicate Increasing(vals: seq<int>) {
    forall i, j :: 0 <= i < j < |vals| ==> vals[i] < vals[j]
  }

  class IntSet {
    var vals: seq<int>

    ghost predicate Valid()
      reads this
    {
      Increasing(vals) && forall i :: 0 <= i < |vals| ==> InRange(vals[i])
    }

    constructor ()
      ensures Valid() && vals == []
    {
      vals := [];
    }

    /** The first position whose value is not below `v`, by halving. */
    method Search(v: int) returns (i: nat, found: bool)
      requires Valid()
      ensures i <= |vals| && (forall k :: 0 <= k < i ==> vals[k] < v) && (forall k :: i <= k < |vals| ==> v <= vals[k])
      ensures found <==> i < |vals| && vals[i] == v
      ensures found <==> v in vals
    {
      var lo, hi := 0, |vals|;
      while lo < hi
        invariant 0 <= lo <= hi <= |vals|
        invariant forall k :: 0 <= k < lo ==> vals[k] < v
        invariant forall k :: hi <= k < |vals| ==> v <= vals[k]
      {
        var h := (lo + hi) / 2;
        if !(vals[h] >= v) { lo := h + 1; } else { hi := h; }
      }
      return lo, lo < |vals| && vals[lo] == v;
    }

    method Add(v: int) returns (added: bool)
      requires Valid() && InRange(v)
      modifies this
      ensures Valid() && added == (v !in old(vals))
      ensures !added ==> vals == old(vals)
      ensures added ==> exists i :: 0 <= i <= |old(vals)| && vals == old(vals)[..i] + [v] + old(vals)[i..]
    {
      var i, found := Search(v);
      if found { return false; }
      vals := vals[..i] + [v] + vals[i..];
      return true;
    }

    method Remove(v: int) returns (removed: bool)
      requires Valid()
      modifies this
      ensures Valid() && removed == (v in old(vals))
      ensures !removed ==> vals == old(vals)
      ensures removed ==> exists i :: 0 <= i < |old(vals)| && old(vals)[i] == v && vals == old(vals)[..i] + old(vals)[i + 1..]
    {
      var i, found := Search(v);
      if !found { return false; }
      vals := vals[..i] + vals[i + 1..];
      return true;
    }
  }

  /** The members in printed form, in numeric order. */
  function Printed(vals: seq<int>): (r: seq<Bytes>)
    ensures |r| == |vals| && forall i :: 0 <= i < |vals| ==> r[i] == FormatInt(vals[i])
  {
    seq(|vals|, i requires 0 <= i < |vals| => FormatInt(vals[i]))
  }
}
