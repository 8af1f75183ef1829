/** Index windows with Redis' negative indices, and reversal. */
module Windows {

  /** A negative index counts from the end. */
  function Normalize(i: int, n: int): int {
    if i < 0 then n + i else i
  }

  /** The elements from `start` to `stop` inclusive, counting from the end when negative. */
  function Window<T>(s: seq<T>, start: int, stop: int): seq<T> {
    var a, b := Normalize(start, |s|), Normalize(stop, |s|);
    var lo := if a < 0 then 0 else a;
    var hi := if b >= |s| then |s| - 1 else b;
    if lo <= hi then s[lo..hi + 1] else []
  }

  /** The clamped bounds every range command computes select the window. */
  lemma WindowIs<T>(s: seq<T>, start: int, stop: int, lo: int, hi: int)
    requires lo == if start >= 0 then start else if |s| + start < 0 then 0 else |s| + start
    requires hi == if stop < 0 then |s| + stop else if stop >= |s| then |s| - 1 else stop
    ensures Window(s, start, stop) == if lo <= hi then s[lo..hi + 1] else []
  {
  }

  function Reversed<T>(s: seq<T>): (r: seq<T>)
    ensures |r| == |s|
    ensures forall k :: 0 <= k < |s| ==> r[k] == s[|s| - 1 - k]
  {
    seq(|s|, k requires 0 <= k < |s| => s[|s| - 1 - k])
  }

  function Directed<T>(s: seq<T>, reverse: bool): seq<T> {
    if reverse then Reversed(s) else s
  }

  lemma DirectedElements<T>(s: seq<T>, reverse: bool)
    ensures |Directed(s, reverse)| == |s|
    ensures forall k :: 0 <= k < |s| ==> Directed(s, reverse)[k] == s[if reverse then |s| - 1 - k else k]
  {
  }
}
