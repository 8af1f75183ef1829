/** What the chunked log of a stream means: the live records, in order. */
module StreamLog {
  import opened Base
  import opened Windows

  /** Milliseconds and sequence number. */
  datatype ID = ID(ms: nat, num: nat) {
    function Compare(other: ID): int {
      if ms < other.ms then -1
      else if ms > other.ms then 1
      else if num < other.num then -1
      else if num > other.num then 1
      else 0
    }
  }

  predicate Before(a: ID, b: ID) {
    a.Compare(b) < 0
  }

  /** Compare is a total order and answers its mirror image. */
  lemma CompareTotal(a: ID, b: ID, c: ID)
    ensures a.Compare(b) == 0 <==> a == b
    ensures a.Compare(b) == -b.Compare(a)
    ensures a.Compare(b) <= 0 && b.Compare(c) <= 0 ==> a.Compare(c) <= 0
  {
  }

  /** Milliseconds count before the sequence number, which is a 64-bit one. */
  lemma BeforeIff(a: ID, b: ID)
    requires a.num < TWO_64 && b.num < TWO_64
    ensures Before(a, b) <==> a.ms * TWO_64 + a.num < b.ms * TWO_64 + b.num
  {
    if a.ms < b.ms { assert (a.ms + 1) * TWO_64 <= b.ms * TWO_64; }
    if b.ms < a.ms { assert (b.ms + 1) * TWO_64 <= a.ms * TWO_64; }
  }

  lemma BeforeTransitive(a: ID, b: ID, c: ID)
    requires Before(a, b) && (Before(b, c) || b == c)
    ensures Before(a, c)
  {
  }

  type Payload = seq<Bytes>

  datatype Record = Record(id: ID, payload: Payload, deleted: bool)

  datatype Entry = Entry(id: ID, payload: Payload)

  /** The entries a reader can see. */
  function Live(rs: seq<Record>): (es: seq<Entry>)
    ensures |es| <= |rs|
  {
    if rs == [] then [] else Seen(rs[0]) + Live(rs[1..])
  }

  function Seen(r: Record): (es: seq<Entry>)
    ensures |es| <= 1
  {
    if r.deleted then [] else [Entry(r.id, r.payload)]
  }

  /** Every record after a live one has a larger ID, whether or not it is still there. An
      emptied stream may restart lower, so this is all that holds of tombstones. */
  ghost predicate Ordered(rs: seq<Record>) {
    forall i, j :: 0 <= i < j < |rs| && !rs[i].deleted ==> Before(rs[i].id, rs[j].id)
  }

  ghost predicate Increasing(es: seq<Entry>) {
    forall i, j :: 0 <= i < j < |es| ==> Before(es[i].id, es[j].id)
  }

  /** The live entries with lo <= ID <= hi. */
  function Matching(rs: seq<Record>, lo: ID, hi: ID): seq<Entry> {
    if rs == [] then []
    else SeenWithin(rs[0], lo, hi) + Matching(rs[1..], lo, hi)
  }

  function SeenWithin(r: Record, lo: ID, hi: ID): seq<Entry> {
    if !r.deleted && !Before(r.id, lo) && !Before(hi, r.id) then [Entry(r.id, r.payload)] else []
  }

  /** The same entries, newest first. */
  function MatchingBack(rs: seq<Record>, lo: ID, hi: ID): seq<Entry> {
    if rs == [] then []
    else SeenWithin(rs[|rs| - 1], lo, hi) + MatchingBack(rs[..|rs| - 1], lo, hi)
  }

  /** The entries whose ID is not in `ids`. */
  function Without(es: seq<Entry>, ids: set<ID>): seq<Entry> {
    if es == [] then [] else (if es[0].id in ids then [] else [es[0]]) + Without(es[1..], ids)
  }

  /** At most `count` entries, or all of them when `count` is not positive. */
  function Take(es: seq<Entry>, count: int): seq<Entry> {
    if 0 < count < |es| then es[..count] else es
  }

  /** The newest `n` entries. */
  function Newest(es: seq<Entry>, n: int): seq<Entry> {
    if n <= 0 then [] else if |es| <= n then es else es[|es| - n..]
  }

  // ---------------------------------------------------------------------------

  lemma {:induction false} LiveConcat(a: seq<Record>, b: seq<Record>)
    ensures Live(a + b) == Live(a) + Live(b)
    decreases |a|
  {
    hide Seen;
    if a == [] {
      assert a + b == b;
    } else {
      calc {
        Live(a + b);
        { assert (a + b)[1..] == a[1..] + b; }
        Seen(a[0]) + Live(a[1..] + b);
        { LiveConcat(a[1..], b); }
        Seen(a[0]) + (Live(a[1..]) + Live(b));
        (Seen(a[0]) + Live(a[1..])) + Live(b);
        Live(a) + Live(b);
      }
    }
  }

  lemma {:induction false} MatchingConcat(a: seq<Record>, b: seq<Record>, lo: ID, hi: ID)
    ensures Matching(a + b, lo, hi) == Matching(a, lo, hi) + Matching(b, lo, hi)
    decreases |a|
  {
    hide SeenWithin;
    if a == [] {
      assert a + b == b;
    } else {
      calc {
        Matching(a + b, lo, hi);
        { assert (a + b)[1..] == a[1..] + b; }
        SeenWithin(a[0], lo, hi) + Matching(a[1..] + b, lo, hi);
        { MatchingConcat(a[1..], b, lo, hi); }
        SeenWithin(a[0], lo, hi) + (Matching(a[1..], lo, hi) + Matching(b, lo, hi));
        Matching(a, lo, hi) + Matching(b, lo, hi);
      }
    }
  }

  lemma {:induction false} MatchingBackConcat(a: seq<Record>, b: seq<Record>, lo: ID, hi: ID)
    ensures MatchingBack(a + b, lo, hi) == MatchingBack(b, lo, hi) + MatchingBack(a, lo, hi)
    decreases |b|
  {
    hide SeenWithin;
    if b == [] {
      assert a + b == a;
    } else {
      var front, r := b[..|b| - 1], b[|b| - 1];
      calc {
        MatchingBack(a + b, lo, hi);
        { assert (a + b)[..|a + b| - 1] == a + front; }
        SeenWithin(r, lo, hi) + MatchingBack(a + front, lo, hi);
        { MatchingBackConcat(a, front, lo, hi); }
        SeenWithin(r, lo, hi) + (MatchingBack(front, lo, hi) + MatchingBack(a, lo, hi));
        MatchingBack(b, lo, hi) + MatchingBack(a, lo, hi);
      }
    }
  }

  lemma {:induction false} MatchingBackReverses(rs: seq<Record>, lo: ID, hi: ID)
    ensures MatchingBack(rs, lo, hi) == Reversed(Matching(rs, lo, hi))
    decreases |rs|
  {
    if rs != [] {
      var front, r := rs[..|rs| - 1], rs[|rs| - 1];
      var x := SeenWithin(r, lo, hi);
      assert |x| <= 1;
      hide SeenWithin, Reversed;
      MatchingBackReverses(front, lo, hi);
      LastSplits(rs);
      MatchingConcat(front, [r], lo, hi);
      assert [r][1..] == [] && x + [] == x;
      ReversedEnd(Matching(front, lo, hi), x);
    } else {
      assert Reversed<Entry>([]) == [];
    }
  }

  lemma ReversedEnd(m: seq<Entry>, x: seq<Entry>)
    requires |x| <= 1
    ensures Reversed(m + x) == x + Reversed(m)
  {
  }

  lemma {:induction false} WithoutConcat(a: seq<Entry>, b: seq<Entry>, ids: set<ID>)
    ensures Without(a + b, ids) == Without(a, ids) + Without(b, ids)
    decreases |a|
  {
    if a == [] {
      assert a + b == b;
    } else {
      var rest := Without(a[1..], ids);
      assert (a + b)[0] == a[0] && (a + b)[1..] == a[1..] + b;
      WithoutConcat(a[1..], b, ids);
      var first := if a[0].id in ids then [] else [a[0]];
      assert first + (rest + Without(b, ids)) == (first + rest) + Without(b, ids);
    }
  }

  lemma {:induction false} NoMatch(rs: seq<Record>, lo: ID, hi: ID)
    requires forall k :: 0 <= k < |rs| && !rs[k].deleted ==> Before(rs[k].id, lo) || Before(hi, rs[k].id)
    ensures Matching(rs, lo, hi) == []
    decreases |rs|
  {
    if rs != [] { NoMatch(rs[1..], lo, hi); }
  }

  /** No live record has an ID from `lo` to `hi`. */
  ghost predicate Outside(rs: seq<Record>, lo: ID, hi: ID) {
    forall k :: 0 <= k < |rs| && !rs[k].deleted ==> Before(rs[k].id, lo) || Before(hi, rs[k].id)
  }

  lemma {:induction false} NoMatchBack(rs: seq<Record>, lo: ID, hi: ID)
    requires Outside(rs, lo, hi)
    ensures MatchingBack(rs, lo, hi) == []
    decreases |rs|
  {
    if rs != [] { NoMatchBack(rs[..|rs| - 1], lo, hi); }
  }

  /** Every visible entry is a live record. */
  lemma {:induction false} LiveIndex(rs: seq<Record>, k: nat) returns (i: nat)
    requires k < |Live(rs)|
    ensures i < |rs| && !rs[i].deleted && Live(rs)[k] == Entry(rs[i].id, rs[i].payload)
    ensures |Live(rs[..i])| == k
    decreases |rs|
  {
    if !rs[0].deleted && k == 0 {
      i := 0;
    } else {
      var k' := if rs[0].deleted then k else k - 1;
      var i' := LiveIndex(rs[1..], k');
      i := i' + 1;
      assert rs[..i] == [rs[0]] + rs[1..][..i'];
      LiveConcat([rs[0]], rs[1..][..i']);
    }
  }

  /** An ordered log shows strictly increasing IDs. */
  lemma LiveIncreasing(rs: seq<Record>)
    requires Ordered(rs)
    ensures Increasing(Live(rs))
  {
    forall j, k | 0 <= j < k < |Live(rs)|
      ensures Before(Live(rs)[j].id, Live(rs)[k].id)
    {
      var a := LiveIndex(rs, j);
      var b := LiveIndex(rs, k);
      LiveGrows(rs, b, a);
    }
  }

  lemma LiveGrows(rs: seq<Record>, b: nat, a: nat)
    requires b <= |rs| && a <= |rs|
    ensures b <= a ==> |Live(rs[..b])| <= |Live(rs[..a])|
  {
    if b <= a {
      assert rs[..a] == rs[..b] + rs[b..a];
      LiveConcat(rs[..b], rs[b..a]);
    }
  }

  // ---------------------------------------------------------------------------
  // What is read, in terms of what is visible.

  function Filter(es: seq<Entry>, keep: Entry -> bool): (r: seq<Entry>)
    ensures forall e :: e in r <==> e in es && keep(e)
  {
    if es == [] then [] else (if keep(es[0]) then [es[0]] else []) + Filter(es[1..], keep)
  }

  /** The visible entries from `lo` to `hi`. */
  function Within(es: seq<Entry>, lo: ID, hi: ID): seq<Entry> {
    Filter(es, (e: Entry) => !Before(e.id, lo) && !Before(hi, e.id))
  }

  lemma {:induction false} MatchingVisible(rs: seq<Record>, lo: ID, hi: ID)
    ensures Matching(rs, lo, hi) == Within(Live(rs), lo, hi)
    decreases |rs|
  {
    if rs != [] {
      MatchingVisible(rs[1..], lo, hi);
      if rs[0].deleted {
        assert [] + Live(rs[1..]) == Live(rs[1..]) && [] + Matching(rs[1..], lo, hi) == Matching(rs[1..], lo, hi);
      } else {
        assert Live(rs)[1..] == Live(rs[1..]);
      }
    }
  }

  lemma {:induction false} WithoutVisible(es: seq<Entry>, ids: set<ID>)
    ensures Without(es, ids) == Filter(es, (e: Entry) => e.id !in ids)
    decreases |es|
  {
    if es != [] { WithoutVisible(es[1..], ids); }
  }

  /** An entry is visible exactly when a record that is not deleted holds it. */
  lemma {:induction false} LiveHas(rs: seq<Record>, e: Entry)
    ensures e in Live(rs) <==> exists i :: 0 <= i < |rs| && rs[i] == Record(e.id, e.payload, false)
    decreases |rs|
  {
    if rs != [] {
      LiveHas(rs[1..], e);
      assert forall i :: 0 <= i < |rs| - 1 ==> rs[1..][i] == rs[i + 1];
      if e in Live(rs[1..]) {
        var i :| 0 <= i < |rs| - 1 && rs[1..][i] == Record(e.id, e.payload, false);
        assert rs[i + 1] == Record(e.id, e.payload, false);
      }
      if i :| 0 < i < |rs| && rs[i] == Record(e.id, e.payload, false) {
        assert rs[1..][i - 1] == rs[i];
      }
    }
  }

  /** `rs'` is `rs` with some records marked deleted. */
  ghost predicate Tombstoned(rs: seq<Record>, rs': seq<Record>) {
    && |rs'| == |rs|
    && forall k :: 0 <= k < |rs| ==> rs'[k].id == rs[k].id && (rs[k].deleted ==> rs'[k].deleted)
  }

  lemma OrderedTombstoned(rs: seq<Record>, rs': seq<Record>)
    requires Ordered(rs) && Tombstoned(rs, rs')
    ensures Ordered(rs')
  {
  }
}
