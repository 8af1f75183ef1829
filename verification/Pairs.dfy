/** Association lists: how a map is held as a list of pairs, and as one flat list of texts. */
module Pairs {
  import opened Base

  datatype Pair = Pair(key: Bytes, value: Bytes)

  ghost predicate Distinct(ps: seq<Pair>) {
    forall i, j :: 0 <= i < j < |ps| ==> ps[i].key != ps[j].key
  }

  /** `ps` holds each pair of `m` once. */
  ghost predicate Holds(ps: seq<Pair>, m: map<Bytes, Bytes>) {
    && Distinct(ps)
    && (forall i :: 0 <= i < |ps| ==> ps[i].key in m && m[ps[i].key] == ps[i].value)
    && (forall k :: k in m ==> exists i :: 0 <= i < |ps| && ps[i].key == k)
  }

  /** The pairs of a list; the last one of a key wins. */
  function PairMap(ps: seq<Pair>): map<Bytes, Bytes> {
    if ps == [] then map[] else PairMap(ps[..|ps| - 1])[ps[|ps| - 1].key := ps[|ps| - 1].value]
  }

  lemma {:induction false} PairMapHeld(ps: seq<Pair>)
    requires Distinct(ps)
    ensures Holds(ps, PairMap(ps))
    decreases |ps|
  {
    if ps != [] {
      var front, last := ps[..|ps| - 1], ps[|ps| - 1];
      PairMapHeld(front);
      assert front + [last] == ps;
      HoldsAppended(front, PairMap(front), last);
    }
  }

  lemma {:induction false} HoldsSize(ps: seq<Pair>, m: map<Bytes, Bytes>)
    requires Holds(ps, m)
    ensures |ps| == |m|
    decreases |ps|
  {
    if ps == [] {
      assert m.Keys == {};
    } else {
      var last, front := ps[|ps| - 1], ps[..|ps| - 1];
      HoldsRemoved(ps, m, |ps| - 1);
      assert ps[..|ps| - 1] + ps[|ps|..] == front;
      HoldsSize(front, m - {last.key});
      assert m.Keys == (m - {last.key}).Keys + {last.key};
    }
  }

  lemma HoldsRemoved(ps: seq<Pair>, m: map<Bytes, Bytes>, i: nat)
    requires Holds(ps, m) && i < |ps|
    ensures Holds(ps[..i] + ps[i + 1..], m - {ps[i].key})
  {
    var ps', m' := ps[..i] + ps[i + 1..], m - {ps[i].key};
    forall k | k in m' ensures exists j :: 0 <= j < |ps'| && ps'[j].key == k {
      var j :| 0 <= j < |ps| && ps[j].key == k;
      assert ps'[if j < i then j else j - 1] == ps[j];
    }
  }

  lemma HoldsAppended(ps: seq<Pair>, m: map<Bytes, Bytes>, p: Pair)
    requires Holds(ps, m) && p.key !in m
    ensures Holds(ps + [p], m[p.key := p.value])
  {
    var ps', m' := ps + [p], m[p.key := p.value];
    forall k | k in m' ensures exists j :: 0 <= j < |ps'| && ps'[j].key == k {
      if k == p.key {
        assert ps'[|ps|].key == k;
      } else {
        var j :| 0 <= j < |ps| && ps[j].key == k;
        assert ps'[j] == ps[j];
      }
    }
  }

  lemma HoldsReplaced(ps: seq<Pair>, m: map<Bytes, Bytes>, i: nat, value: Bytes)
    requires Holds(ps, m) && i < |ps|
    ensures Holds(ps[i := Pair(ps[i].key, value)], m[ps[i].key := value])
  {
    var ps', m' := ps[i := Pair(ps[i].key, value)], m[ps[i].key := value];
    forall k | k in m' ensures exists j :: 0 <= j < |ps'| && ps'[j].key == k {
      var j :| 0 <= j < |ps| && ps[j].key == k;
      assert ps'[j].key == k;
    }
  }

  /** Key and value alternate. */
  function Texts(ps: seq<Pair>): (t: seq<Bytes>)
    ensures |t| == 2 * |ps|
    ensures forall k :: 0 <= k < |ps| ==> t[2 * k] == ps[k].key && t[2 * k + 1] == ps[k].value
  {
    var t := seq(2 * |ps|, k requires 0 <= k < 2 * |ps| => if k % 2 == 0 then ps[k / 2].key else ps[k / 2].value);
    assert forall k :: 0 <= k < |ps| ==> (2 * k) / 2 == k && (2 * k + 1) / 2 == k && (2 * k + 1) % 2 == 1;
    t
  }

  /** Every two texts make a pair. */
  function FromTexts(t: seq<Bytes>): (ps: seq<Pair>)
    ensures |ps| == |t| / 2
  {
    seq(|t| / 2, k requires 0 <= k < |t| / 2 => Pair(t[2 * k], t[2 * k + 1]))
  }

  lemma TextsRead(ps: seq<Pair>)
    ensures FromTexts(Texts(ps)) == ps
  {
    hide Texts;
    var qs := FromTexts(Texts(ps));
    forall k | 0 <= k < |ps| ensures qs[k] == ps[k] { assert qs[k] == Pair(Texts(ps)[2 * k], Texts(ps)[2 * k + 1]); }
  }

  lemma TextsUnique(ps: seq<Pair>, t: seq<Bytes>)
    requires |t| == 2 * |ps|
    requires forall k :: 0 <= k < |ps| ==> t[2 * k] == ps[k].key && t[2 * k + 1] == ps[k].value
    ensures t == Texts(ps)
  {
    var u := Texts(ps);
    hide Texts;
    forall j | 0 <= j < |t| ensures t[j] == u[j] {
      var k := j / 2;
      assert j == 2 * k || j == 2 * k + 1;
      assert t[2 * k] == u[2 * k] && t[2 * k + 1] == u[2 * k + 1];
    }
  }

  lemma TextsRemoved(ps: seq<Pair>, k: nat)
    requires k < |ps|
    ensures Texts(ps)[..2 * k] + Texts(ps)[2 * k + 2..] == Texts(ps[..k] + ps[k + 1..])
  {
    hide Texts;
    var t, rest := Texts(ps), ps[..k] + ps[k + 1..];
    var t' := t[..2 * k] + t[2 * k + 2..];
    forall i | 0 <= i < |rest| ensures t'[2 * i] == rest[i].key && t'[2 * i + 1] == rest[i].value {
      var j := if i < k then i else i + 1;
      assert rest[i] == ps[j] && t'[2 * i] == t[2 * j] && t'[2 * i + 1] == t[2 * j + 1];
    }
    TextsUnique(rest, t');
  }

  /** Key first, then value after it. */
  lemma TextsInserted(ps: seq<Pair>, k: nat, p: Pair)
    requires k <= |ps|
    ensures var t := Texts(ps);
            var t1 := t[..2 * k] + [p.key] + t[2 * k..];
            t1[..2 * k + 1] + [p.value] + t1[2 * k + 1..] == Texts(ps[..k] + [p] + ps[k..])
  {
    hide Texts;
    var t, more := Texts(ps), ps[..k] + [p] + ps[k..];
    var t1 := t[..2 * k] + [p.key] + t[2 * k..];
    var t2 := t1[..2 * k + 1] + [p.value] + t1[2 * k + 1..];
    forall i | 0 <= i < |more| ensures t2[2 * i] == more[i].key && t2[2 * i + 1] == more[i].value {
      if i < k {
        assert more[i] == ps[i] && t2[2 * i] == t[2 * i] && t2[2 * i + 1] == t[2 * i + 1];
      } else if i > k {
        var j := i - 1;
        assert more[i] == ps[j] && t2[2 * i] == t[2 * j] && t2[2 * i + 1] == t[2 * j + 1];
      }
    }
    TextsUnique(more, t2);
  }

  lemma TextsAppended(ps: seq<Pair>, p: Pair)
    ensures Texts(ps) + [p.key] + [p.value] == Texts(ps + [p])
  {
    hide Texts;
    var t' := Texts(ps) + [p.key] + [p.value];
    forall i | 0 <= i < |ps + [p]| ensures t'[2 * i] == (ps + [p])[i].key && t'[2 * i + 1] == (ps + [p])[i].value {
      if i < |ps| { assert t'[2 * i] == Texts(ps)[2 * i] && t'[2 * i + 1] == Texts(ps)[2 * i + 1]; }
    }
    TextsUnique(ps + [p], t');
  }

  lemma TextsReplaced(ps: seq<Pair>, k: nat, value: Bytes)
    requires k < |ps|
    ensures Texts(ps)[2 * k + 1 := value] == Texts(ps[k := Pair(ps[k].key, value)])
  {
    hide Texts;
    var t', ps' := Texts(ps)[2 * k + 1 := value], ps[k := Pair(ps[k].key, value)];
    forall i | 0 <= i < |ps'| ensures t'[2 * i] == ps'[i].key && t'[2 * i + 1] == ps'[i].value {
      assert t'[2 * i] == Texts(ps)[2 * i] && (i != k ==> t'[2 * i + 1] == Texts(ps)[2 * i + 1]);
    }
    TextsUnique(ps', t');
  }
}
