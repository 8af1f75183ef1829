/** The longest common subsequence of two strings: its length, its text and where it lies. */
module Lcs {
  import opened Base
  import opened Windows

  function Front<T>(s: seq<T>): seq<T>
    requires s != []
  {
    s[..|s| - 1]
  }

  function Last<T>(s: seq<T>): T
    requires s != []
  {
    s[|s| - 1]
  }

  /** `r` is what is left of `s` after leaving out some of its bytes. */
  ghost predicate Subsequence(r: Bytes, s: Bytes)
    decreases |s|
  {
    r == [] ||
    (s != [] && (Subsequence(r, Front(s)) || (Last(r) == Last(s) && Subsequence(Front(r), Front(s)))))
  }

  ghost predicate Common(r: Bytes, a: Bytes, b: Bytes) {
    Subsequence(r, a) && Subsequence(r, b)
  }

  lemma {:induction false} DropLast(r: Bytes, s: Bytes)
    requires r != [] && Subsequence(r, s)
    ensures Subsequence(Front(r), s) && Subsequence(Front(r), Front(s))
    decreases |s|
  {
    if Subsequence(r, Front(s)) {
      DropLast(r, Front(s));
    }
  }

  lemma {:induction false} Concat(r: Bytes, x: Bytes, t: Bytes, y: Bytes)
    requires Subsequence(r, x) && Subsequence(t, y)
    ensures Subsequence(r + t, x + y)
    decreases |y|
  {
    if y == [] {
      assert r + t == r && x + y == x;
    } else {
      assert Front(x + y) == x + Front(y);
      if t == [] || Subsequence(t, Front(y)) {
        Concat(r, x, t, Front(y));
      } else {
        Concat(r, x, Front(t), Front(y));
        assert Front(r + t) == r + Front(t);
      }
    }
  }

  /** The recurrence the table is filled by. */
  ghost function Best(a: Bytes, b: Bytes): nat
    decreases |a| + |b|
  {
    if a == [] || b == [] then 0
    else if Last(a) == Last(b) then Best(Front(a), Front(b)) + 1
    else if Best(Front(a), b) >= Best(a, Front(b)) then Best(Front(a), b)
    else Best(a, Front(b))
  }

  /** No common subsequence is longer. */
  lemma {:induction false} BestIsUpperBound(r: Bytes, a: Bytes, b: Bytes)
    requires Common(r, a, b)
    ensures |r| <= Best(a, b)
    decreases |a| + |b|
  {
    if r != [] {
      if Last(a) == Last(b) {
        DropLast(r, a);
        DropLast(r, b);
        BestIsUpperBound(Front(r), Front(a), Front(b));
      } else if Subsequence(r, Front(a)) {
        BestIsUpperBound(r, Front(a), b);
      } else {
        BestIsUpperBound(r, a, Front(b));
      }
    }
  }

  // ---------------------------------------------------------------------------
  // The table, row after row in one array.

  function Cell(i: nat, j: nat, cols: nat): nat {
    i * cols + j
  }

  lemma CellSteps(i: nat, j: nat, cols: nat)
    ensures Cell(i, j, cols) == Cell(i, 0, cols) + j && Cell(i + 1, 0, cols) == Cell(i, 0, cols) + cols
  {
  }

  lemma {:induction false} RowsApart(i: nat, i': nat, cols: nat)
    requires i < i'
    ensures Cell(i, 0, cols) + cols <= Cell(i', 0, cols)
    decreases i'
  {
    hide Cell;
    CellSteps(i' - 1, 0, cols);
    if i < i' - 1 { RowsApart(i, i' - 1, cols); }
  }

  lemma CellInside(i: nat, j: nat, rows: nat, cols: nat)
    requires i < rows && j < cols
    ensures Cell(i, j, cols) < Cell(rows, 0, cols)
  {
    hide Cell;
    CellSteps(i, j, cols);
    RowsApart(i, rows, cols);
  }

  lemma CellDistinct(i: nat, j: nat, i': nat, j': nat, cols: nat)
    requires j < cols && j' < cols && (i != i' || j != j')
    ensures Cell(i, j, cols) != Cell(i', j', cols)
  {
    hide Cell;
    CellSteps(i, j, cols);
    CellSteps(i', j', cols);
    if i < i' { RowsApart(i, i', cols); }
    if i' < i { RowsApart(i', i, cols); }
  }

  /** The cell for the first `i` bytes of `a` and the first `j` of `b` is right. */
  ghost predicate CellOk(flat: seq<nat>, a: Bytes, b: Bytes, i: nat, j: nat)
    requires i <= |a| && j <= |b|
  {
    var c := Cell(i, j, |b| + 1);
    c < |flat| && flat[c] == Best(a[..i], b[..j])
  }

  ghost predicate TableOk(flat: seq<nat>, a: Bytes, b: Bytes) {
    forall i, j :: 0 <= i <= |a| && 0 <= j <= |b| ==> CellOk(flat, a, b, i, j)
  }

  lemma BestStep(a: Bytes, b: Bytes, i: nat, j: nat)
    requires 0 < i <= |a| && 0 < j <= |b|
    ensures Best(a[..i], b[..j]) ==
            if a[i - 1] == b[j - 1] then Best(a[..i - 1], b[..j - 1]) + 1
            else if Best(a[..i - 1], b[..j]) >= Best(a[..i], b[..j - 1]) then Best(a[..i - 1], b[..j])
            else Best(a[..i], b[..j - 1])
  {
    assert Front(a[..i]) == a[..i - 1] && Front(b[..j]) == b[..j - 1];
  }

  /** Writing one cell leaves every other cell right. */
  lemma CellKept(flat: seq<nat>, v: nat, a: Bytes, b: Bytes, i: nat, j: nat, i': nat, j': nat)
    requires i <= |a| && j <= |b| && i' <= |a| && j' <= |b|
    requires CellOk(flat, a, b, i, j) && Cell(i', j', |b| + 1) < |flat| && (i != i' || j != j')
    ensures CellOk(flat[Cell(i', j', |b| + 1) := v], a, b, i, j)
  {
    hide Cell, Best;
    CellDistinct(i, j, i', j', |b| + 1);
  }

  /** Row 0, column 0, the rows before `i`, and row `i` up to column `j`. */
  ghost predicate Filled(flat: seq<nat>, a: Bytes, b: Bytes, i: nat, j: nat) {
    forall p, q :: 0 <= p <= |a| && 0 <= q <= |b| && (p == 0 || q == 0 || p < i || (p == i && q < j)) ==>
      CellOk(flat, a, b, p, q)
  }

  lemma FilledStep(flat: seq<nat>, v: nat, a: Bytes, b: Bytes, i: nat, j: nat)
    requires 0 < i <= |a| && 0 < j <= |b| && Filled(flat, a, b, i, j)
    requires Cell(i, j, |b| + 1) < |flat| && v == Best(a[..i], b[..j])
    ensures Filled(flat[Cell(i, j, |b| + 1) := v], a, b, i, j + 1)
  {
    hide Cell, Best;
    var flat' := flat[Cell(i, j, |b| + 1) := v];
    forall p, q | 0 <= p <= |a| && 0 <= q <= |b| && (p == 0 || q == 0 || p < i || (p == i && q < j + 1))
      ensures CellOk(flat', a, b, p, q)
    {
      if p != i || q != j {
        assert CellOk(flat, a, b, p, q);
        CellKept(flat, v, a, b, p, q, i, j);
      }
    }
  }

  /** All the cells start at zero, which is right along the edges. */
  lemma FilledStart(flat: seq<nat>, a: Bytes, b: Bytes)
    requires |flat| == Cell(|a| + 1, 0, |b| + 1) && forall k :: 0 <= k < |flat| ==> flat[k] == 0
    ensures Filled(flat, a, b, 1, 1)
  {
    hide Cell;
    forall p, q | 0 <= p <= |a| && 0 <= q <= |b| && (p == 0 || q == 0)
      ensures CellOk(flat, a, b, p, q)
    {
      CellInside(p, q, |a| + 1, |b| + 1);
    }
  }

  method FillTable(a: Bytes, b: Bytes) returns (flat: array<nat>)
    ensures fresh(flat) && TableOk(flat[..], a, b)
  {
    hide Cell, Best, CellOk, Filled;
    var rows, cols := |a| + 1, |b| + 1;
    flat := new nat[Cell(rows, 0, cols)](_ => 0);
    FilledStart(flat[..], a, b);
    var i := 1;
    while i < rows
      invariant 1 <= i <= rows && flat.Length == Cell(rows, 0, cols) && Filled(flat[..], a, b, i, 1)
    {
      var j := 1;
      while j < cols
        invariant 1 <= j <= cols && flat.Length == Cell(rows, 0, cols) && Filled(flat[..], a, b, i, j)
      {
        FillCell(a, b, flat, i, j);
        j := j + 1;
      }
      FilledRow(flat[..], a, b, i);
      i := i + 1;
    }
    FilledAll(flat[..], a, b);
  }

  lemma FilledRow(flat: seq<nat>, a: Bytes, b: Bytes, i: nat)
    requires Filled(flat, a, b, i, |b| + 1)
    ensures Filled(flat, a, b, i + 1, 1)
  {
    hide CellOk;
  }

  lemma FilledAll(flat: seq<nat>, a: Bytes, b: Bytes)
    requires Filled(flat, a, b, |a| + 1, 1)
    ensures TableOk(flat, a, b)
  {
    hide CellOk;
  }

  method FillCell(a: Bytes, b: Bytes, flat: array<nat>, i: nat, j: nat)
    requires 0 < i <= |a| && 0 < j <= |b| && flat.Length == Cell(|a| + 1, 0, |b| + 1)
    requires Filled(flat[..], a, b, i, j)
    modifies flat
    ensures Filled(flat[..], a, b, i, j + 1)
  {
    hide Best, Cell;
    var cols := |b| + 1;
    CellInside(i, j, |a| + 1, cols);
    ghost var s := flat[..];
    assert CellOk(s, a, b, i - 1, j - 1) && CellOk(s, a, b, i - 1, j) && CellOk(s, a, b, i, j - 1);
    BestStep(a, b, i, j);
    var up, left := flat[Cell(i - 1, j, cols)], flat[Cell(i, j - 1, cols)];
    var v: nat := if a[i - 1] == b[j - 1] then flat[Cell(i - 1, j - 1, cols)] + 1 else if up >= left then up else left;
    FilledStep(s, v, a, b, i, j);
    flat[Cell(i, j, cols)] := v;
    assert flat[..] == s[Cell(i, j, cols) := v];
  }

  // ---------------------------------------------------------------------------
  // The walk back.

  /** A range of `a` and an equal range of `b`, both ends included. */
  datatype Match = Match(aStart: nat, aEnd: nat, bStart: nat, bEnd: nat, length: nat)

  ghost predicate MatchOk(m: Match, a: Bytes, b: Bytes) {
    && m.aStart <= m.aEnd < |a| && m.bStart <= m.bEnd < |b|
    && m.length == m.aEnd + 1 - m.aStart == m.bEnd + 1 - m.bStart
    && a[m.aStart..m.aEnd + 1] == b[m.bStart..m.bEnd + 1]
  }

  /** Every range lies wholly before the one reported before it, in both strings. */
  ghost predicate Descending(ms: seq<Match>) {
    forall p, q :: 0 <= p < q < |ms| ==> ms[q].aEnd < ms[p].aStart && ms[q].bEnd < ms[p].bStart
  }

  ghost function Piece(m: Match, a: Bytes): Bytes {
    if m.aStart <= m.aEnd < |a| then a[m.aStart..m.aEnd + 1] else []
  }

  /** The matched text, the last reported range first. */
  ghost function Text(ms: seq<Match>, a: Bytes): Bytes
    decreases |ms|
  {
    if ms == [] then [] else Piece(Last(ms), a) + Text(Front(ms), a)
  }

  ghost predicate MatchesOk(ms: seq<Match>, a: Bytes, b: Bytes) {
    (forall m :: m in ms ==> MatchOk(m, a, b)) && Descending(ms)
  }

  lemma ReversedAppend(s: Bytes, x: byte)
    ensures Reversed(s + [x]) == [x] + Reversed(s)
  {
  }

  /** A suffix found so far: it is common to the rest of both strings, and the best start completes it. */
  ghost predicate Tail(t: Bytes, a: Bytes, b: Bytes, i: nat, j: nat)
    requires i <= |a| && j <= |b|
  {
    Common(t, a[i..], b[j..]) && |t| + Best(a[..i], b[..j]) == Best(a, b)
  }

  lemma SkipOne(t: Bytes, s: Bytes, i: nat)
    requires 0 < i <= |s| && Subsequence(t, s[i..])
    ensures Subsequence(t, s[i - 1..])
  {
    Concat([], s[i - 1..i], t, s[i..]);
    assert [] + t == t && s[i - 1..i] + s[i..] == s[i - 1..];
  }

  lemma TakeOne(t: Bytes, s: Bytes, i: nat)
    requires 0 < i <= |s| && Subsequence(t, s[i..])
    ensures Subsequence([s[i - 1]] + t, s[i - 1..])
  {
    var x := [s[i - 1]];
    assert Front(x) == [];
    Concat(x, x, t, s[i..]);
    assert x + s[i..] == s[i - 1..];
  }

  lemma TailTake(t: Bytes, a: Bytes, b: Bytes, i: nat, j: nat)
    requires 0 < i <= |a| && 0 < j <= |b| && Tail(t, a, b, i, j) && a[i - 1] == b[j - 1]
    ensures Tail([a[i - 1]] + t, a, b, i - 1, j - 1)
  {
    hide Subsequence, Best;
    TakeOne(t, a, i);
    TakeOne(t, b, j);
    BestStep(a, b, i, j);
  }

  lemma TailSkip(t: Bytes, a: Bytes, b: Bytes, i: nat, j: nat, up: bool)
    requires 0 < i <= |a| && 0 < j <= |b| && Tail(t, a, b, i, j) && a[i - 1] != b[j - 1]
    requires up <==> Best(a[..i - 1], b[..j]) > Best(a[..i], b[..j - 1])
    ensures if up then Tail(t, a, b, i - 1, j) else Tail(t, a, b, i, j - 1)
  {
    hide Subsequence, Best;
    if up { SkipOne(t, a, i); } else { SkipOne(t, b, j); }
    BestStep(a, b, i, j);
  }

  lemma TailDone(t: Bytes, a: Bytes, b: Bytes, i: nat, j: nat)
    requires i <= |a| && j <= |b| && Tail(t, a, b, i, j) && (i == 0 || j == 0)
    ensures Common(t, a, b) && |t| == Best(a, b)
  {
    hide Subsequence;
    Suffix(t, a, i);
    Suffix(t, b, j);
  }

  lemma Suffix(t: Bytes, s: Bytes, i: nat)
    requires i <= |s| && Subsequence(t, s[i..])
    ensures Subsequence(t, s)
  {
    Concat([], s[..i], t, s[i..]);
    assert [] + t == t && s[..i] + s[i..] == s;
  }

  /** The ranges closed so far, and the run still open at `i` and `j`. */
  ghost predicate Runs(ms: seq<Match>, run: nat, i: nat, j: nat, t: Bytes, a: Bytes, b: Bytes) {
    && MatchesOk(ms, a, b) && i + run <= |a| && j + run <= |b| && a[i..i + run] == b[j..j + run]
    && (forall m :: m in ms ==> i + run <= m.aStart && j + run <= m.bStart)
    && t == a[i..i + run] + Text(ms, a)
  }

  lemma RunGrows(ms: seq<Match>, run: nat, i: nat, j: nat, t: Bytes, a: Bytes, b: Bytes)
    requires Runs(ms, run, i, j, t, a, b) && i > 0 && j > 0 && a[i - 1] == b[j - 1]
    ensures Runs(ms, run + 1, i - 1, j - 1, [a[i - 1]] + t, a, b)
  {
    hide MatchesOk, Text;
    assert a[i - 1..i + run] == [a[i - 1]] + a[i..i + run] && b[j - 1..j + run] == [b[j - 1]] + b[j..j + run];
    assert [a[i - 1]] + (a[i..i + run] + Text(ms, a)) == [a[i - 1]] + a[i..i + run] + Text(ms, a);
  }

  lemma RunCloses(ms: seq<Match>, run: nat, i: nat, j: nat, t: Bytes, a: Bytes, b: Bytes, m: Match)
    requires Runs(ms, run, i, j, t, a, b) && run > 0 && m == Match(i, i + run - 1, j, j + run - 1, run)
    ensures Runs(ms + [m], 0, i, j, t, a, b)
  {
    hide MatchesOk, Text;
    assert MatchOk(m, a, b) && Piece(m, a) == a[i..i + run];
    hide MatchOk, Piece;
    TextAppend(ms, m, a);
    MatchesAppend(ms, m, a, b);
    NoRun(i, j, Text(ms + [m], a), a, b);
  }

  lemma NoRun(i: nat, j: nat, t: Bytes, a: Bytes, b: Bytes)
    requires i <= |a| && j <= |b|
    ensures a[i..i + 0] == b[j..j + 0] && a[i..i + 0] + t == t
  {
  }

  lemma TextAppend(ms: seq<Match>, m: Match, a: Bytes)
    ensures Text(ms + [m], a) == Piece(m, a) + Text(ms, a)
  {
    hide Piece;
    assert Front(ms + [m]) == ms && Last(ms + [m]) == m;
  }

  lemma MatchesAppend(ms: seq<Match>, m: Match, a: Bytes, b: Bytes)
    requires MatchesOk(ms, a, b) && MatchOk(m, a, b)
    requires forall n :: n in ms ==> m.aEnd < n.aStart && m.bEnd < n.bStart
    ensures MatchesOk(ms + [m], a, b)
  {
    hide MatchOk;
  }

  lemma RunMoves(ms: seq<Match>, i: nat, j: nat, i': nat, j': nat, t: Bytes, a: Bytes, b: Bytes)
    requires Runs(ms, 0, i, j, t, a, b) && i' <= i && j' <= j
    ensures Runs(ms, 0, i', j', t, a, b)
  {
    hide MatchesOk, Text;
    assert a[i..i] == [] == a[i'..i'];
  }

  /** The text comes out backwards. */
  method WalkBack(a: Bytes, b: Bytes, flat: array<nat>) returns (result: Bytes, matches: seq<Match>)
    requires TableOk(flat[..], a, b)
    ensures var t := Reversed(result);
            Common(t, a, b) && |t| == Best(a, b) && MatchesOk(matches, a, b) && Text(matches, a) == t
  {
    hide Common, Best, MatchesOk, Text, Reversed, Runs, Cell;
    var i, j := |a|, |b|;
    result, matches := [], [];
    ghost var t: Bytes := [];
    var runEndA, runEndB, runLen := 0, 0, 0;
    WalkStarts(a, b);
    while i > 0 && j > 0
      invariant 0 <= i <= |a| && 0 <= j <= |b| && t == Reversed(result)
      invariant Tail(t, a, b, i, j) && Runs(matches, runLen, i, j, t, a, b)
      invariant runLen > 0 ==> runEndA == i + runLen - 1 && runEndB == j + runLen - 1
      decreases i + j
    {
      if a[i - 1] == b[j - 1] {
        if runLen == 0 { runEndA, runEndB := i - 1, j - 1; }
        TailTake(t, a, b, i, j);
        RunGrows(matches, runLen, i, j, t, a, b);
        ReversedAppend(result, a[i - 1]);
        runLen := runLen + 1;
        t, result := [a[i - 1]] + t, result + [a[i - 1]];
        i, j := i - 1, j - 1;
        continue;
      }
      if runLen > 0 {
        var m := Match(i, runEndA, j, runEndB, runLen);
        RunCloses(matches, runLen, i, j, t, a, b, m);
        matches := matches + [m];
        runLen := 0;
      }
      assert CellOk(flat[..], a, b, i - 1, j) && CellOk(flat[..], a, b, i, j - 1);
      var up := flat[Cell(i - 1, j, |b| + 1)] > flat[Cell(i, j - 1, |b| + 1)];
      TailSkip(t, a, b, i, j, up);
      RunMoves(matches, i, j, if up then i - 1 else i, if up then j else j - 1, t, a, b);
      if up { i := i - 1; } else { j := j - 1; }
    }
    if runLen > 0 {
      var m := Match(i, runEndA, j, runEndB, runLen);
      RunCloses(matches, runLen, i, j, t, a, b, m);
      matches := matches + [m];
    }
    TailDone(t, a, b, i, j);
    WalkEnds(matches, i, j, t, a, b);
  }

  lemma WalkStarts(a: Bytes, b: Bytes)
    ensures Tail([], a, b, |a|, |b|) && Runs([], 0, |a|, |b|, [], a, b) && Reversed<byte>([]) == []
  {
    assert a[..|a|] == a && b[..|b|] == b && a[|a|..|a|] == [] == b[|b|..|b|];
  }

  lemma WalkEnds(ms: seq<Match>, i: nat, j: nat, t: Bytes, a: Bytes, b: Bytes)
    requires Runs(ms, 0, i, j, t, a, b)
    ensures MatchesOk(ms, a, b) && Text(ms, a) == t
  {
    hide MatchesOk, Text;
    assert a[i..i] == [];
  }

  method TurnAround(result: Bytes) returns (r: Bytes)
    ensures r == Reversed(result)
  {
    var buf := new byte[|result|](i requires 0 <= i < |result| => result[i]);
    var left, right := 0, |result| - 1;
    while left < right
      invariant 0 <= left && left + right == |result| - 1 && right >= left - 1
      invariant forall k :: 0 <= k < left || right < k < |result| ==> buf[k] == result[|result| - 1 - k]
      invariant forall k :: left <= k <= right ==> buf[k] == result[k]
    {
      buf[left], buf[right] := buf[right], buf[left];
      left, right := left + 1, right - 1;
    }
    r := buf[..];
  }

  ghost function Total(ms: seq<Match>): nat {
    if ms == [] then 0 else ms[0].length + Total(ms[1..])
  }

  lemma {:induction false} TotalAppend(ms: seq<Match>, m: Match)
    ensures Total(ms + [m]) == Total(ms) + m.length
  {
    if ms != [] {
      assert (ms + [m])[1..] == ms[1..] + [m];
      TotalAppend(ms[1..], m);
    } else {
      assert [m][1..] == [];
    }
  }

  /** The reported lengths add up to the length of the matched text. */
  lemma {:induction false} TotalIsLength(ms: seq<Match>, a: Bytes, b: Bytes)
    requires forall m :: m in ms ==> MatchOk(m, a, b)
    ensures Total(ms) == |Text(ms, a)|
    decreases |ms|
  {
    if ms != [] {
      assert MatchOk(Last(ms), a, b);
      TotalIsLength(Front(ms), a, b);
      TotalAppend(Front(ms), Last(ms));
      assert Front(ms) + [Last(ms)] == ms;
    }
  }

  /**
   * The command's three answers: a length no common subsequence exceeds, a common subsequence of
   * that length, and disjoint descending ranges of equal text that spell it.
   */
  method Solve(a: Bytes, b: Bytes) returns (length: nat, text: Bytes, matches: seq<Match>)
    ensures Common(text, a, b) && |text| == length
    ensures forall r :: Common(r, a, b) ==> |r| <= length
    ensures MatchesOk(matches, a, b) && Text(matches, a) == text && Total(matches) == length
  {
    hide Cell, Best, Common, Text;
    var flat := FillTable(a, b);
    assert CellOk(flat[..], a, b, |a|, |b|);
    length := flat[Cell(|a|, |b|, |b| + 1)];
    assert a[..|a|] == a && b[..|b|] == b;
    var result;
    result, matches := WalkBack(a, b, flat);
    text := TurnAround(result);
    TotalIsLength(matches, a, b);
    forall r | Common(r, a, b) ensures |r| <= length { BestIsUpperBound(r, a, b); }
  }
}
