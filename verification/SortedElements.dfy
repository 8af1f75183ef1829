/** The value of a sorted set: (member, score) pairs in (score, member) order. */
module SortedElements {
  import opened Base

  type Member = Bytes

  /** Only the order of scores matters, and NaN is refused before a score is stored. */
  type Score = real

  datatype Element = Element(member: Member, score: Score)

  /** The comparison every walk of the skip list uses. */
  predicate Less(a: Element, b: Element) {
    a.score < b.score || (a.score == b.score && BytesLess(a.member, b.member))
  }

  lemma LessTransitive(a: Element, b: Element, c: Element)
    requires Less(a, b) && Less(b, c)
    ensures Less(a, c)
  {
    if a.score == b.score == c.score { BytesLessTransitive(a.member, b.member, c.member); }
  }

  lemma LessTotal(a: Element, b: Element)
    ensures a == b || Less(a, b) || Less(b, a)
  {
    BytesLessTotal(a.member, b.member);
  }

  lemma LessAsymmetric(a: Element, b: Element)
    requires Less(a, b)
    ensures a != b && !Less(b, a)
  {
    BytesLessIrreflexive(a.member);
    if Less(b, a) { BytesLessTransitive(a.member, b.member, a.member); }
  }

  ghost predicate Sorted(s: seq<Element>) {
    forall j, k :: 0 <= j < k < |s| ==> Less(s[j], s[k])
  }

  /** A sorted listing goes by score, and among equal scores by member. */
  lemma ListingOrder(s: seq<Element>, i: nat, j: nat)
    requires Sorted(s) && i < j < |s|
    ensures s[i].score < s[j].score || (s[i].score == s[j].score && Precedes(s[i].member, s[j].member))
  {
    BytesLessIff(s[i].member, s[j].member);
  }

  /** `s` lists exactly the pairs of `m`, in order. */
  ghost predicate Enumerates(s: seq<Element>, m: map<Member, Score>) {
    && Sorted(s)
    && (forall e :: e in s ==> e.member in m && m[e.member] == e.score)
    && (forall x :: x in m ==> Element(x, m[x]) in s)
  }

  /** A map has at most one sorted enumeration, so any two structures that both
      enumerate the same map answer every positional query alike. */
  lemma {:induction false} EnumerationUnique(s: seq<Element>, t: seq<Element>, m: map<Member, Score>)
    requires Enumerates(s, m) && Enumerates(t, m)
    ensures s == t
  {
    SortedSameElements(s, t);
  }

  lemma {:induction false} SortedSameElements(s: seq<Element>, t: seq<Element>)
    requires Sorted(s) && Sorted(t)
    requires forall e :: e in s <==> e in t
    ensures s == t
    decreases |s|
  {
    if |t| > 0 { assert t[0] in s; }
    if |s| > 0 {
      assert s[0] in t;
      var a :| 0 <= a < |t| && t[a] == s[0];
      assert t[0] in s;
      var b :| 0 <= b < |s| && s[b] == t[0];
      if a > 0 { LessAsymmetric(t[0], t[a]); }
      if b > 0 { LessAsymmetric(s[0], s[b]); }
      assert s[0] == t[0];
      forall e
        ensures e in s[1..] <==> e in t[1..]
      {
        if e in s[1..] {
          var k :| 0 <= k < |s[1..]| && s[1..][k] == e;
          LessAsymmetric(s[0], s[k+1]);
          assert e in s;
        }
        if e in t[1..] {
          var k :| 0 <= k < |t[1..]| && t[1..][k] == e;
          LessAsymmetric(t[0], t[k+1]);
          assert e in t;
        }
      }
      SortedSameElements(s[1..], t[1..]);
      assert s == [s[0]] + s[1..] && t == [t[0]] + t[1..];
    }
  }

  lemma {:induction false} EnumerationSize(s: seq<Element>, m: map<Member, Score>)
    requires Enumerates(s, m)
    ensures |s| == |m|
    decreases |s|
  {
    if s == [] {
      assert m.Keys == {};
    } else {
      var last := s[|s| - 1];
      DropLast(s, m);
      EnumerationSize(s[..|s| - 1], m - {last.member});
      assert m.Keys == (m - {last.member}).Keys + {last.member};
    }
  }

  lemma DropLast(s: seq<Element>, m: map<Member, Score>)
    requires Enumerates(s, m) && |s| > 0
    ensures s[|s| - 1].member in m
    ensures Enumerates(s[..|s| - 1], m - {s[|s| - 1].member})
  {
    hide Less;
    var last, front := s[|s| - 1], s[..|s| - 1];
    assert last in s;
    forall e | e in front
      ensures e in s && e.member != last.member
    {
      var k :| 0 <= k < |front| && front[k] == e;
      assert s[k] == e;
      LessAsymmetric(s[k], last);
    }
    forall x | x in m && x != last.member
      ensures Element(x, m[x]) in front
    {
      var k :| 0 <= k < |s| && s[k] == Element(x, m[x]);
      assert front[k] == s[k];
    }
  }

  // ---------------------------------------------------------------------------
  // How an enumeration follows its map.

  lemma NotListed(s: seq<Element>, m: map<Member, Score>, x: Member)
    requires Enumerates(s, m) && x !in m
    ensures forall k :: 0 <= k < |s| ==> s[k].member != x
  {
    forall k | 0 <= k < |s|
      ensures s[k].member != x
    {
      assert s[k] in s;
    }
  }

  /** A member of the map sits at exactly one position. */
  lemma Position(s: seq<Element>, m: map<Member, Score>, x: Member) returns (k: nat)
    requires Enumerates(s, m) && x in m
    ensures k < |s| && s[k] == Element(x, m[x])
    ensures forall j :: 0 <= j < |s| && s[j].member == x ==> j == k
  {
    hide Less;
    assert Element(x, m[x]) in s;
    k :| k < |s| && s[k] == Element(x, m[x]);
    forall j | 0 <= j < |s| && s[j].member == x
      ensures j == k
    {
      assert s[j] in s;
      if j < k { LessAsymmetric(s[j], s[k]); }
      if k < j { LessAsymmetric(s[k], s[j]); }
    }
  }

  lemma EnumeratesInserted(s: seq<Element>, r: nat, e: Element, m: map<Member, Score>)
    requires Enumerates(s, m) && e.member !in m && r <= |s| && Sorted(s[..r] + [e] + s[r..])
    ensures Enumerates(s[..r] + [e] + s[r..], m[e.member := e.score])
  {
    hide Less;
    assert s == s[..r] + s[r..];
  }

  lemma EnumeratesRemoved(s: seq<Element>, r: nat, m: map<Member, Score>)
    requires Enumerates(s, m) && r < |s|
    ensures Enumerates(s[..r] + s[r + 1..], m - {s[r].member})
  {
    hide Less;
    var t := s[..r] + s[r + 1..];
    assert s[r] in s;
    var _ := Position(s, m, s[r].member);
    SortedWithout(s, r, t);
    forall e | e in t
      ensures e in s && e.member != s[r].member
    {
      var j :| 0 <= j < |t| && t[j] == e;
      assert t[j] == s[if j < r then j else j + 1];
    }
    forall x | x in m && x != s[r].member
      ensures Element(x, m[x]) in t
    {
      var k := Position(s, m, x);
      assert t[if k < r then k else k - 1] == s[k];
    }
  }

  lemma SortedWithout(s: seq<Element>, r: nat, t: seq<Element>)
    requires Sorted(s) && r < |s| && t == s[..r] + s[r + 1..]
    ensures Sorted(t)
  {
    hide Less;
    forall j, k | 0 <= j < k < |t|
      ensures Less(t[j], t[k])
    {
      assert t[j] == s[if j < r then j else j + 1] && t[k] == s[if k < r then k else k + 1];
    }
  }

  /** The pairs of a list; the last one of a member wins. */
  function MapOf(s: seq<Element>): map<Member, Score> {
    if s == [] then map[] else MapOf(s[..|s| - 1])[s[|s| - 1].member := s[|s| - 1].score]
  }

  lemma MapOfNone(all: seq<Element>)
    ensures MapOf(all[..0]) == map[]
  {
  }

  lemma MapOfNext(all: seq<Element>, i: nat)
    requires i < |all|
    ensures MapOf(all[..i + 1]) == MapOf(all[..i])[all[i].member := all[i].score]
  {
    assert all[..i + 1][..i] == all[..i];
  }

  lemma {:induction false} MapOfListed(s: seq<Element>, value: map<Member, Score>)
    requires Enumerates(s, value)
    ensures MapOf(s) == value
    decreases |s|
  {
    if s == [] {
      assert value.Keys == {};
    } else {
      var last := s[|s| - 1];
      assert last in s;
      DropLast(s, value);
      MapOfListed(s[..|s| - 1], value - {last.member});
    }
  }

  ghost predicate DistinctMembers(s: seq<Element>) {
    forall i, j :: 0 <= i < j < |s| ==> s[i].member != s[j].member
  }

  /** With no member twice the map has every pair of the list and no others. */
  lemma {:induction false} MapOfSize(s: seq<Element>)
    requires DistinctMembers(s)
    ensures |MapOf(s)| == |s| && forall m :: m in MapOf(s) <==> exists i :: 0 <= i < |s| && s[i].member == m
    decreases |s|
  {
    if s != [] {
      var front, last := s[..|s| - 1], s[|s| - 1];
      MapOfSize(front);
      assert MapOf(s).Keys == MapOf(front).Keys + {last.member};
      forall m ensures m in MapOf(s) <==> exists i :: 0 <= i < |s| && s[i].member == m {
        if m in MapOf(front) { var i :| 0 <= i < |front| && front[i].member == m; assert s[i].member == m; }
        if m == last.member { assert s[|s| - 1].member == m; }
        if i :| 0 <= i < |s| && s[i].member == m { if i < |front| { assert front[i].member == m; } }
      }
    }
  }
}
