/** Redis glob matching: a backtracking matcher that prunes with a shared flag. */
module Glob {
  import opened Base

  const STAR: byte := 42
  const QUESTION: byte := 63
  const OPEN: byte := 91
  const ESCAPE: byte := 92
  const CLOSE: byte := 93
  const CARET: byte := 94
  const DASH: byte := 45

  const MAX_NESTING: nat := 1000

  function Lower(c: byte): byte {
    if 65 <= c <= 90 then c + 32 else c
  }

  predicate SameByte(a: byte, b: byte, fold: bool) {
    if fold then Lower(a) == Lower(b) else a == b
  }

  // ---------------------------------------------------------------------------
  // The pattern language.

  /** How many bytes the class item at `k` takes: an escape, a range or one byte. */
  function ItemWidth(p: Bytes, k: nat): (w: nat)
    requires k < |p|
    ensures 1 <= w <= |p| - k
  {
    if p[k] == ESCAPE && k + 1 < |p| then 2
    else if k + 2 < |p| && p[k + 1] == DASH && p[k + 2] != CLOSE then 3
    else 1
  }

  /** An escaped byte ignores case folding; a range is read in either direction. */
  predicate ItemMatches(p: Bytes, k: nat, c: byte, fold: bool)
    requires k < |p|
  {
    match ItemWidth(p, k)
    case 2 => p[k + 1] == c
    case 3 =>
      var lo, hi := if p[k] > p[k + 2] then p[k + 2] else p[k], if p[k] > p[k + 2] then p[k] else p[k + 2];
      if fold then Lower(lo) <= Lower(c) <= Lower(hi) else lo <= c <= hi
    case _ => SameByte(p[k], c, fold)
  }

  /** Whether any class item from `k` on matches. */
  predicate AnyItem(p: Bytes, k: nat, c: byte, fold: bool)
    requires k <= |p|
    decreases |p| - k
  {
    k < |p| && p[k] != CLOSE && (ItemMatches(p, k, c, fold) || AnyItem(p, k + ItemWidth(p, k), c, fold))
  }

  /** The position just after the class, which may lack its closing bracket. */
  function ClassEnd(p: Bytes, k: nat): (e: nat)
    requires k <= |p|
    ensures k <= e <= |p|
    decreases |p| - k
  {
    if k == |p| then k else if p[k] == CLOSE then k + 1 else ClassEnd(p, k + ItemWidth(p, k))
  }

  function ClassStart(p: Bytes): (k: nat)
    requires |p| > 0
    ensures 1 <= k <= |p|
  {
    if |p| > 1 && p[1] == CARET then 2 else 1
  }

  /** Bytes of pattern the first token takes; only a star token matches more or less than one byte. */
  function TokenWidth(p: Bytes): (w: nat)
    requires |p| > 0
    ensures 1 <= w <= |p|
  {
    if p[0] == OPEN then ClassEnd(p, ClassStart(p))
    else if p[0] == ESCAPE && |p| > 1 then 2
    else 1
  }

  predicate TokenMatches(p: Bytes, c: byte, fold: bool)
    requires |p| > 0 && p[0] != STAR
  {
    if p[0] == QUESTION then true
    else if p[0] == OPEN then AnyItem(p, ClassStart(p), c, fold) != (ClassStart(p) == 2)
    else if p[0] == ESCAPE && |p| > 1 then SameByte(p[1], c, fold)
    else SameByte(p[0], c, fold)
  }

  /** The declarative matcher: a star takes any run, every other token exactly one byte. */
  predicate Matches(p: Bytes, s: Bytes, fold: bool)
    decreases |p|, |s|
  {
    if p == [] then s == []
    else if p[0] == STAR then Matches(p[1..], s, fold) || (s != [] && Matches(p, s[1..], fold))
    else s != [] && TokenMatches(p, s[0], fold) && Matches(p[TokenWidth(p)..], s[1..], fold)
  }

  /** Star groups with something after them: each costs the matcher one level of recursion. */
  function Depth(p: Bytes): nat {
    if p == [] then 0
    else if p[0] != STAR then Depth(p[TokenWidth(p)..])
    else if |p| == 1 then 0
    else if p[1] == STAR then Depth(p[1..])
    else 1 + Depth(p[1..])
  }

  // ---------------------------------------------------------------------------
  // Facts about the language.

  lemma {:induction false} StarTakesSuffix(p: Bytes, s: Bytes, fold: bool)
    requires |p| > 0 && p[0] == 42
    ensures Matches(p, s, fold) <==> exists k :: 0 <= k <= |s| && Matches(p[1..], s[k..], fold)
    decreases |s|
  {
    assert s[0..] == s;
    if s != [] {
      StarTakesSuffix(p, s[1..], fold);
      assert forall k :: 0 <= k < |s| ==> s[1..][k..] == s[k + 1..];
      if Matches(p, s[1..], fold) {
        var k :| 0 <= k <= |s[1..]| && Matches(p[1..], s[1..][k..], fold);
        assert Matches(p[1..], s[k + 1..], fold);
      }
      if k :| 0 < k <= |s| && Matches(p[1..], s[k..], fold) {
        assert s[1..][k - 1..] == s[k..];
      }
    }
  }

  /** Adjacent stars are one star. */
  lemma DoubleStar(p: Bytes, s: Bytes, fold: bool)
    requires |p| > 1 && p[0] == STAR && p[1] == STAR
    ensures Matches(p, s, fold) == Matches(p[1..], s, fold)
  {
    StarTakesSuffix(p, s, fold);
    StarTakesSuffix(p[1..], s, fold);
    forall k | 0 <= k <= |s| && Matches(p[1..], s[k..], fold)
      ensures Matches(p[1..], s, fold)
    {
      StarTakesSuffix(p[1..], s[k..], fold);
      var j :| 0 <= j <= |s[k..]| && Matches(p[1..][1..], s[k..][j..], fold);
      assert s[k..][j..] == s[k + j..];
    }
    assert s[0..] == s;
  }

  lemma {:induction false} LoneStar(s: Bytes, fold: bool)
    ensures Matches([STAR], s, fold)
  {
    StarTakesSuffix([STAR], s, fold);
    assert s[|s|..] == [] && [STAR][1..] == [];
  }

  // ---------------------------------------------------------------------------
  // What patterns mean, said without tokens.

  predicate IsSpecial(c: byte) {
    c == 42 || c == 63 || c == 91 || c == 92
  }

  /** Letters from A to Z become those from a to z. */
  function Folded(s: Bytes): (r: Bytes)
    ensures |r| == |s| && forall i :: 0 <= i < |s| ==> r[i] == if 65 <= s[i] <= 90 then s[i] + 32 else s[i]
  {
    seq(|s|, i requires 0 <= i < |s| => Lower(s[i]))
  }

  /** The string itself, or up to case. */
  ghost predicate Alike(p: Bytes, s: Bytes, fold: bool) {
    if fold then Folded(p) == Folded(s) else p == s
  }

  lemma AlikeCons(p: Bytes, s: Bytes, fold: bool)
    requires p != [] && s != []
    ensures Alike(p, s, fold) <==> SameByte(p[0], s[0], fold) && Alike(p[1..], s[1..], fold)
  {
    if fold {
      assert Folded(p)[1..] == Folded(p[1..]) && Folded(s)[1..] == Folded(s[1..]);
      assert Folded(p) == [Lower(p[0])] + Folded(p)[1..] && Folded(s) == [Lower(s[0])] + Folded(s)[1..];
    } else {
      assert p == [p[0]] + p[1..] && s == [s[0]] + s[1..];
    }
  }

  lemma AlikeEmpty(p: Bytes, s: Bytes, fold: bool)
    requires p == [] || s == []
    ensures Alike(p, s, fold) <==> p == s
  {
    assert |Folded(p)| == |p| && |Folded(s)| == |s|;
  }

  /** A pattern without special bytes matches itself, up to case when that is folded. */
  lemma {:induction false} PlainMatches(p: Bytes, s: Bytes, fold: bool)
    requires forall i :: 0 <= i < |p| ==> !IsSpecial(p[i])
    ensures Matches(p, s, fold) <==> Alike(p, s, fold)
    decreases |p|
  {
    hide Alike, SameByte;
    if p != [] && s != [] {
      PlainMatches(p[1..], s[1..], fold);
      AlikeCons(p, s, fold);
    } else {
      AlikeEmpty(p, s, fold);
    }
  }

  /** A question mark matches any one byte. */
  lemma QuestionMatches(s: Bytes, fold: bool)
    ensures Matches([63], s, fold) <==> |s| == 1
  {
    OneToken([63], s, fold);
  }

  /** An escaped byte matches just that byte, whatever it is, up to case when that is folded. */
  lemma EscapeMatches(c: byte, s: Bytes, fold: bool)
    ensures Matches([92, c], s, fold) <==> Alike([c], s, fold)
  {
    OneToken([92, c], s, fold);
    if s != [] { AlikeCons([c], s, fold); AlikeEmpty([c][1..], s[1..], fold); } else { AlikeEmpty([c], s, fold); }
    hide Alike;
  }

  /** A pattern of one token matches one byte. */
  lemma OneToken(p: Bytes, s: Bytes, fold: bool)
    requires |p| > 0 && p[0] != STAR && TokenWidth(p) == |p|
    ensures Matches(p, s, fold) <==> |s| == 1 && TokenMatches(p, s[0], fold)
  {
    hide TokenMatches, TokenWidth;
    assert p[|p|..] == [];
    if s != [] { assert Matches([], s[1..], fold) <==> s[1..] == []; }
  }

  /** Bytes that stand for themselves in a class: no bracket, escape or dash. */
  predicate IsMember(c: byte) {
    c != 93 && c != 92 && c != 45
  }

  /** "[" + set + "]" matches one byte of the set; "[^" + set + "]" one byte outside it. */
  lemma ClassMatches(members: Bytes, s: Bytes, fold: bool)
    requires forall i :: 0 <= i < |members| ==> IsMember(members[i])
    ensures members == [] || members[0] != 94 ==> (Matches([91] + members + [93], s, fold) <==> |s| == 1 && Among(s[0], members, fold))
    ensures Matches([91, 94] + members + [93], s, fold) <==> |s| == 1 && !Among(s[0], members, fold)
  {
    hide Among;
    var p, q := [91] + members + [93], [91, 94] + members + [93];
    if members == [] || members[0] != 94 {
      assert ClassStart(p) == 1;
      ClassItems(p, 1, members);
      OneToken(p, s, fold);
      if |s| == 1 { ItemsIn(p, 1, members, s[0], fold); }
    }
    assert ClassStart(q) == 2;
    ClassItems(q, 2, members);
    OneToken(q, s, fold);
    if |s| == 1 { ItemsIn(q, 2, members, s[0], fold); }
  }

  /** In the set, or in it once case is folded. */
  ghost predicate Among(c: byte, members: Bytes, fold: bool) {
    if fold then Folded([c])[0] in Folded(members) else c in members
  }

  lemma AmongCons(c: byte, members: Bytes, fold: bool)
    requires members != []
    ensures Among(c, members, fold) <==> SameByte(members[0], c, fold) || Among(c, members[1..], fold)
  {
    assert members == [members[0]] + members[1..];
    assert Folded(members) == [Lower(members[0])] + Folded(members[1..]);
  }

  lemma AmongNone(c: byte, fold: bool)
    ensures !Among(c, [], fold)
  {
  }

  /** The rest of a class from `k` on: plain members and the closing bracket. */
  ghost predicate Listing(p: Bytes, k: nat, members: Bytes) {
    && |p| == k + |members| + 1 && p[k..] == members + [93]
    && forall i :: 0 <= i < |members| ==> IsMember(members[i])
  }

  lemma ListingStep(p: Bytes, k: nat, members: Bytes)
    requires Listing(p, k, members) && members != []
    ensures p[k] == members[0] && ItemWidth(p, k) == 1 && Listing(p, k + 1, members[1..])
  {
    assert p[k..][0] == members[0] && p[k + 1..] == p[k..][1..] == members[1..] + [93];
    assert p[k + 1] == p[k..][1];
  }

  lemma {:induction false} ClassItems(p: Bytes, k: nat, members: Bytes)
    requires Listing(p, k, members)
    ensures ClassEnd(p, k) == |p|
    decreases |members|
  {
    if members == [] {
      assert p[k] == p[k..][0] == 93;
    } else {
      ListingStep(p, k, members);
      ClassItems(p, k + 1, members[1..]);
    }
  }

  lemma {:induction false} ItemsIn(p: Bytes, k: nat, members: Bytes, c: byte, fold: bool)
    requires Listing(p, k, members)
    ensures AnyItem(p, k, c, fold) <==> Among(c, members, fold)
    decreases |members|
  {
    hide Among, SameByte;
    if members == [] {
      AmongNone(c, fold);
      assert p[k] == p[k..][0] == 93;
    } else {
      ListingStep(p, k, members);
      ItemsIn(p, k + 1, members[1..], c, fold);
      AmongCons(c, members, fold);
    }
  }

  /** "[x-y]" matches one byte from the smaller of the two to the larger; "[^x-y]" one outside. */
  lemma RangeMatches(x: byte, y: byte, s: Bytes)
    requires IsMember(x) && IsMember(y)
    ensures x != 94 ==> (Matches([91, x, 45, y, 93], s, false) <==> |s| == 1 && Between(x, s[0], y))
    ensures Matches([91, 94, x, 45, y, 93], s, false) <==> |s| == 1 && !Between(x, s[0], y)
  {
    var p, q := [91, x, 45, y, 93], [91, 94, x, 45, y, 93];
    if x != 94 {
      RangeToken(p, 1, x, y);
      OneToken(p, s, false);
    }
    RangeToken(q, 2, x, y);
    OneToken(q, s, false);
  }

  predicate Between(x: byte, c: byte, y: byte) {
    x <= c <= y || y <= c <= x
  }

  lemma RangeToken(p: Bytes, k: nat, x: byte, y: byte)
    requires IsMember(x) && IsMember(y) && 1 <= k && |p| == k + 4 && p[0] == OPEN && k == ClassStart(p)
    requires p[k] == x && p[k + 1] == 45 && p[k + 2] == y && p[k + 3] == 93
    ensures TokenWidth(p) == |p| && forall c: byte :: AnyItem(p, k, c, false) <==> Between(x, c, y)
  {
    assert ItemWidth(p, k) == 3 && ClassEnd(p, k + 3) == k + 4;
    forall c: byte ensures AnyItem(p, k, c, false) <==> Between(x, c, y) {
      assert !AnyItem(p, k + 3, c, false);
    }
  }

  /** Adjoining patterns match adjoining strings, when the first ends where a token does. */
  lemma {:induction false} TokenThenRest(p: Bytes, q: Bytes, s: Bytes, fold: bool)
    requires forall i :: 0 <= i < |p| ==> !IsSpecial(p[i])
    ensures Matches(p + q, s, fold) <==> |p| <= |s| && Matches(p, s[..|p|], fold) && Matches(q, s[|p|..], fold)
    decreases |p|
  {
    if p == [] {
      assert p + q == q && s[0..] == s && s[..0] == [];
    } else if s != [] {
      TokenThenRest(p[1..], q, s[1..], fold);
      assert (p + q)[1..] == p[1..] + q;
      if |p| <= |s| { assert s[..|p|][1..] == s[1..][..|p| - 1] && s[1..][|p| - 1..] == s[|p|..]; }
    }
  }

  /** Against an empty string only stars match. */
  lemma {:induction false} EmptyString(p: Bytes, fold: bool)
    ensures Matches(p, [], fold) <==> forall k :: 0 <= k < |p| ==> p[k] == STAR
    decreases |p|
  {
    if p != [] && p[0] == STAR {
      EmptyString(p[1..], fold);
      assert forall k :: 1 <= k < |p| ==> p[k] == p[1..][k - 1];
    }
  }

  lemma {:induction false} OnlyStarsDepth(p: Bytes)
    requires forall k :: 0 <= k < |p| ==> p[k] == STAR
    ensures Depth(p) == 0
    decreases |p|
  {
    if |p| > 1 { OnlyStarsDepth(p[1..]); }
  }

  /** No suffix of `s` matches, so no longer run for an enclosing star can help. */
  ghost predicate NoSuffix(p: Bytes, s: Bytes, fold: bool) {
    forall k :: 0 <= k <= |s| ==> !Matches(p, s[k..], fold)
  }

  /** Matching `p0` anywhere in `s0` means matching `p` exactly `m` bytes later. */
  ghost predicate Advanced(p0: Bytes, p: Bytes, s0: Bytes, m: nat, fold: bool) {
    forall k :: 0 <= k <= |s0| && Matches(p0, s0[k..], fold) ==> k + m <= |s0| && Matches(p, s0[k + m..], fold)
  }

  lemma AdvancedStep(p0: Bytes, p: Bytes, s0: Bytes, m: nat, fold: bool)
    requires Advanced(p0, p, s0, m, fold) && |p| > 0 && p[0] != STAR
    ensures Advanced(p0, p[TokenWidth(p)..], s0, m + 1, fold)
  {
    forall k | 0 <= k <= |s0| && Matches(p0, s0[k..], fold)
      ensures k + m + 1 <= |s0| && Matches(p[TokenWidth(p)..], s0[k + m + 1..], fold)
    {
      var t := s0[k + m..];
      assert Matches(p, t, fold);
      assert t[1..] == s0[k + m + 1..];
    }
  }

  lemma NoSuffixBefore(p0: Bytes, p: Bytes, s0: Bytes, m: nat, fold: bool)
    requires Advanced(p0, p, s0, m, fold) && m <= |s0| && NoSuffix(p, s0[m..], fold)
    ensures NoSuffix(p0, s0, fold)
  {
    forall k | 0 <= k <= |s0|
      ensures !Matches(p0, s0[k..], fold)
    {
      if k + m <= |s0| { assert s0[m..][k..] == s0[k + m..]; }
    }
  }

  /** If what follows a star matches no suffix, neither does the star. */
  lemma StarFails(p: Bytes, s: Bytes, fold: bool)
    requires |p| > 0 && p[0] == STAR && NoSuffix(p[1..], s, fold)
    ensures NoSuffix(p, s, fold)
  {
    forall k | 0 <= k <= |s|
      ensures !Matches(p, s[k..], fold)
    {
      StarTakesSuffix(p, s[k..], fold);
      forall j | 0 <= j <= |s[k..]|
        ensures !Matches(p[1..], s[k..][j..], fold)
      {
        assert s[k..][j..] == s[k + j..];
      }
    }
  }

  // ---------------------------------------------------------------------------
  // The matcher.

  /** A character class against one byte. */
  method MatchClass(p: Bytes, c: byte, fold: bool) returns (ok: bool, width: nat)
    requires |p| > 0 && p[0] == OPEN
    ensures ok == TokenMatches(p, c, fold) && width == TokenWidth(p)
  {
    var k := 1;
    var neg := k < |p| && p[k] == CARET;
    if neg { k := k + 1; }
    ghost var start := k;
    var matched := false;
    while k < |p| && p[k] != CLOSE
      invariant start <= k <= |p|
      invariant (matched || AnyItem(p, k, c, fold)) == AnyItem(p, start, c, fold)
      invariant ClassEnd(p, k) == ClassEnd(p, start)
      decreases |p| - k
    {
      ghost var item := k;
      if p[k] == ESCAPE && k + 1 < |p| {
        k := k + 1;
        if p[k] == c { matched := true; }
      } else if k + 2 < |p| && p[k + 1] == DASH && p[k + 2] != CLOSE {
        var lo, hi, ch := p[k], p[k + 2], c;
        if lo > hi { lo, hi := hi, lo; }
        if fold { lo, hi, ch := Lower(lo), Lower(hi), Lower(ch); }
        if lo <= ch <= hi { matched := true; }
        k := k + 2;
      } else {
        if SameByte(p[k], c, fold) { matched := true; }
      }
      k := k + 1;
      assert k == item + ItemWidth(p, item);
    }
    if k < |p| && p[k] == CLOSE { k := k + 1; }
    if neg { matched := !matched; }
    return matched, k;
  }

  /** Match one byte against the first token and step past it. */
  method Consume(p: Bytes, c: byte, fold: bool) returns (ok: bool, rest: Bytes)
    requires |p| > 0 && p[0] != STAR
    ensures ok == TokenMatches(p, c, fold) && rest == p[TokenWidth(p)..]
  {
    if p[0] == QUESTION {
      ok, rest := true, p[1..];
    } else if p[0] == OPEN {
      var width;
      ok, width := MatchClass(p, c, fold);
      rest := p[width..];
    } else {
      rest := if p[0] == ESCAPE && |p| >= 2 then p[1..] else p;
      ok := SameByte(rest[0], c, fold);
      rest := rest[1..];
    }
  }

  /** The answer for every pattern and string: the declarative one, unless the pattern nests
      deeper than the limit, when it is no. The flag is only raised when no enclosing star can
      succeed. Calls stay linear: one per byte of string and one per level. */
  method MatchImpl(p0: Bytes, s0: Bytes, fold: bool, nesting: nat)
    returns (matched: bool, skip: bool, ghost calls: nat)
    ensures matched <==> nesting + Depth(p0) <= MAX_NESTING && Matches(p0, s0, fold)
    ensures skip ==> !matched && (nesting + Depth(p0) <= MAX_NESTING ==> NoSuffix(p0, s0, fold))
    ensures calls <= |s0| + Depth(p0) + 1
    ensures !matched && !skip ==> calls == 1
    decreases |p0|, 2
  {
    skip, calls := false, 1;
    if nesting > MAX_NESTING { return false, skip, calls; }
    var p, s := p0, s0;
    while |p| > 0 && |s| > 0
      invariant |p| <= |p0| && |s| <= |s0| && s == s0[|s0| - |s|..]
      invariant Depth(p) == Depth(p0) && Matches(p, s, fold) == Matches(p0, s0, fold)
      invariant Advanced(p0, p, s0, |s0| - |s|, fold)
      decreases |p|
    {
      if p[0] == STAR {
        ghost var nested: nat;
        matched, skip, nested := MatchStar(p, s, fold, nesting);
        calls := 1 + nested;
        if skip && nesting + Depth(p0) <= MAX_NESTING { NoSuffixBefore(p0, p, s0, |s0| - |s|, fold); }
        return;
      }
      AdvancedStep(p0, p, s0, |s0| - |s|, fold);
      var ok;
      ok, p := Consume(p, s[0], fold);
      if !ok { return false, skip, calls; }
      s := s[1..];
    }
    if |s| == 0 {
      var q := StripStars(p);
      EmptyString(p, fold);
      if q == [] { OnlyStarsDepth(p); }
      matched := q == [];
    } else {
      matched := false;
    }
  }

  method StripStars(p: Bytes) returns (q: Bytes)
    ensures q == [] <==> forall k :: 0 <= k < |p| ==> p[k] == STAR
  {
    var i := 0;
    q := p;
    while |q| > 0 && q[0] == STAR
      invariant 0 <= i <= |p| && q == p[i..]
      invariant forall k :: 0 <= k < i ==> p[k] == STAR
      decreases |q|
    {
      q := q[1..];
      i := i + 1;
    }
  }

  /** The star case: try every suffix until one matches or the flag says to give up. */
  method MatchStar(p0: Bytes, s0: Bytes, fold: bool, nesting: nat)
    returns (matched: bool, skip: bool, ghost nested: nat)
    requires |p0| > 0 && p0[0] == STAR && |s0| > 0 && nesting <= MAX_NESTING
    ensures matched <==> nesting + Depth(p0) <= MAX_NESTING && Matches(p0, s0, fold)
    ensures skip <==> !matched
    ensures skip && nesting + Depth(p0) <= MAX_NESTING ==> NoSuffix(p0, s0, fold)
    ensures nested <= |s0| + Depth(p0)
    decreases |p0|, 1
  {
    nested := 0;
    var p := p0;
    while |p| >= 2 && p[1] == STAR
      invariant 0 < |p| <= |p0| && p[0] == STAR
      invariant Depth(p) == Depth(p0)
      invariant forall t :: Matches(p, t, fold) == Matches(p0, t, fold)
      decreases |p|
    {
      forall t: Bytes ensures Matches(p[1..], t, fold) == Matches(p, t, fold) { DoubleStar(p, t, fold); }
      p := p[1..];
    }
    if |p| == 1 {
      LoneStar(s0, fold);
      assert p == [STAR];
      return true, false, nested;
    }
    matched, skip, nested := TrySuffixes(p, s0, fold, nesting);
  }

  method TrySuffixes(p: Bytes, s0: Bytes, fold: bool, nesting: nat)
    returns (matched: bool, skip: bool, ghost nested: nat)
    requires |p| >= 2 && p[0] == STAR && p[1] != STAR && nesting <= MAX_NESTING
    ensures matched <==> nesting + Depth(p) <= MAX_NESTING && Matches(p, s0, fold)
    ensures skip <==> !matched
    ensures skip && nesting + Depth(p) <= MAX_NESTING ==> NoSuffix(p, s0, fold)
    ensures nested <= |s0| + Depth(p)
    decreases |p|, 0
  {
    StarTakesSuffix(p, s0, fold);
    var s := s0;
    nested := 0;
    while |s| > 0
      invariant |s| <= |s0| && s == s0[|s0| - |s|..]
      invariant nested == |s0| - |s|
      invariant nesting + Depth(p) <= MAX_NESTING ==>
        forall k :: 0 <= k < |s0| - |s| ==> !Matches(p[1..], s0[k..], fold)
    {
      ghost var more: nat;
      matched, skip, more := MatchImpl(p[1..], s, fold, nesting + 1);
      nested := nested + more;
      if matched { return; }
      if skip {
        if nesting + Depth(p) <= MAX_NESTING {
          GaveUp(p[1..], s0, |s0| - |s|, fold);
          StarFails(p, s0, fold);
          assert s0[0..] == s0;
        }
        return;
      }
      s := s[1..];
    }
    if nesting + Depth(p) <= MAX_NESTING {
      EmptyString(p[1..], fold);
      GaveUp(p[1..], s0, |s0|, fold);
      StarFails(p, s0, fold);
      assert s0[0..] == s0;
    }
    return false, true, nested;
  }

  lemma GaveUp(q: Bytes, s: Bytes, m: nat, fold: bool)
    requires m <= |s| && forall k :: 0 <= k < m ==> !Matches(q, s[k..], fold)
    requires NoSuffix(q, s[m..], fold)
    ensures NoSuffix(q, s, fold)
  {
    forall k | m <= k <= |s|
      ensures !Matches(q, s[k..], fold)
    {
      assert s[m..][k - m..] == s[k..];
    }
  }

  /** The public entry point. */
  method Match(pattern: Bytes, s: Bytes, fold: bool) returns (matched: bool)
    ensures matched <==> Depth(pattern) <= MAX_NESTING && Matches(pattern, s, fold)
  {
    var skip; ghost var calls;
    matched, skip, calls := MatchImpl(pattern, s, fold, 0);
  }

  /** `*?` repeated. */
  function StarQuestions(n: nat): Bytes {
    if n == 0 then [] else [STAR, QUESTION] + StarQuestions(n - 1)
  }

  /** The documented departure from the plain syntax: past the limit this family always
      matches by definition, and the matcher says no. */
  lemma {:induction false} StarQuestionsMatch(n: nat, s: Bytes, fold: bool)
    requires |s| == n
    ensures Matches(StarQuestions(n), s, fold) && Depth(StarQuestions(n)) == n
    decreases n
  {
    if n > 0 {
      var p, rest := StarQuestions(n), StarQuestions(n - 1);
      assert p[1..] == [QUESTION] + rest && p[1..][1..] == rest;
      StarQuestionsMatch(n - 1, s[1..], fold);
      assert Matches(p[1..], s, fold) && Depth(p[1..]) == n - 1;
    }
  }
}
