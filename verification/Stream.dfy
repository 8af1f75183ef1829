/** The append log of a stream, split into a chain of chunks. */
module Stream {
  import opened Base
  import opened StreamLog
  import opened Windows

  const MAX_CHUNK_ENTRIES: nat := 512

  class Chunk {
    var entries: seq<Record>
    var deletedCount: int
    var prev: Chunk?
    var next: Chunk?

    constructor ()
      ensures entries == [] && deletedCount == 0 && prev == null && next == null
    {
      entries, deletedCount, prev, next := [], 0, null, null;
    }
  }

  type Table = seq<seq<Record>>

  ghost function At(cs: seq<Chunk>, i: int): Chunk? {
    if 0 <= i < |cs| then cs[i] else null
  }

  ghost predicate Distinct(cs: seq<Chunk>) {
    forall i, j :: 0 <= i < j < |cs| ==> cs[i] != cs[j]
  }

  ghost predicate Linked(cs: seq<Chunk>)
    reads cs`prev, cs`next
  {
    && (forall i {:trigger cs[i].prev} :: 0 <= i < |cs| ==> cs[i].prev == At(cs, i - 1))
    && (forall i {:trigger cs[i].next} :: 0 <= i < |cs| ==> cs[i].next == At(cs, i + 1))
  }

  /** The chunks hold the rows of `t`, and each counts its own tombstones. */
  ghost predicate Holds(cs: seq<Chunk>, t: Table)
    reads cs`entries, cs`deletedCount
  {
    && |t| == |cs|
    && forall i :: 0 <= i < |cs| ==> cs[i].entries == t[i] && cs[i].deletedCount == |t[i]| - |Live(t[i])|
  }

  /** The log is ordered, counted, and bounded by the last ID. */
  ghost predicate LogOk(rs: seq<Record>, length: int, lastID: ID) {
    && Ordered(rs) && length == |Live(rs)|
    && forall k :: 0 <= k < |rs| && !rs[k].deleted ==> !Before(lastID, rs[k].id)
  }

  lemma {:induction false} FlatLast(t: Table, row: seq<Record>, r: Record)
    ensures Flat(t + [row + [r]]) == Flat(t + [row]) + [r]
  {
    FlatConcat(t, [row + [r]]);
    FlatConcat(t, [row]);
    assert Flat([row + [r]]) == row + [r] && Flat([row]) == row;
  }

  /** Accepting only larger IDs while anything is visible keeps the log ordered. */
  lemma LogAppended(rs: seq<Record>, length: int, lastID: ID, r: Record)
    requires LogOk(rs, length, lastID) && !r.deleted
    requires length > 0 ==> Before(lastID, r.id)
    ensures LogOk(rs + [r], length + 1, r.id)
    ensures Live(rs + [r]) == Live(rs) + [Entry(r.id, r.payload)]
  {
    hide Live;
    LiveConcat(rs, [r]);
    LiveOfOne(r);
    forall k | 0 <= k < |rs| && !rs[k].deleted
      ensures Before(rs[k].id, r.id)
    {
      LiveRecordCounts(rs, k);
    }
  }

  lemma LiveRecordCounts(rs: seq<Record>, k: nat)
    requires k < |rs| && !rs[k].deleted
    ensures |Live(rs)| > 0
  {
    assert rs == rs[..k] + [rs[k]] + rs[k + 1..];
    LiveConcat(rs[..k] + [rs[k]], rs[k + 1..]);
    LiveConcat(rs[..k], [rs[k]]);
    assert |Live([rs[k]])| == 1;
  }

  /** Dropping the oldest records keeps the newest entries. */
  lemma LogDropped(a: seq<Record>, b: seq<Record>, length: int, lastID: ID)
    requires LogOk(a + b, length, lastID)
    ensures LogOk(b, length - |Live(a)|, lastID)
    ensures Live(b) == Live(a + b)[|Live(a)|..]
  {
    LiveConcat(a, b);
    assert forall k :: 0 <= k < |b| ==> b[k] == (a + b)[|a| + k];
  }

  /** Marking records deleted, anywhere, keeps the log ordered. */
  lemma LogTombstoned(rs: seq<Record>, rs': seq<Record>, length: int, lastID: ID)
    requires LogOk(rs, length, lastID) && Tombstoned(rs, rs')
    ensures LogOk(rs', |Live(rs')|, lastID)
  {
    OrderedTombstoned(rs, rs');
  }

  lemma NextLink(cs: seq<Chunk>, i: nat)
    requires Linked(cs) && i < |cs|
    ensures cs[i].next == At(cs, i + 1)
  {
  }

  lemma LiveOfNone()
    ensures Live([]) == []
  {
  }

  lemma LiveOfOne(r: Record)
    ensures Live([r]) == if r.deleted then [] else [Entry(r.id, r.payload)]
  {
  }

  /** Mark the matching entries of one chunk. */
  method DeleteIn(c: Chunk, ids: set<ID>) returns (n: int)
    requires c.deletedCount == |c.entries| - |Live(c.entries)|
    modifies c`entries, c`deletedCount
    ensures c.deletedCount == |c.entries| - |Live(c.entries)|
    ensures Live(c.entries) == Without(Live(old(c.entries)), ids)
    ensures n == |Live(old(c.entries))| - |Live(c.entries)|
    ensures Tombstoned(old(c.entries), c.entries)
  {
    hide Live, Without;
    ghost var e := c.entries;
    n := 0;
    var i := 0;
    LiveOfNone();
    WithoutNone(ids);
    assert e[..0] == [];
    while i < |c.entries|
      invariant 0 <= i <= |e| == |c.entries| && Tombstoned(e, c.entries)
      invariant c.entries[i..] == e[i..] && Live(c.entries[..i]) == Without(Live(e[..i]), ids)
      invariant n == |Live(e[..i])| - |Live(c.entries[..i])|
      invariant c.deletedCount == |e| - |Live(e)| + n
    {
      assert c.entries[i] == c.entries[i..][0] == e[i];
      ghost var before := c.entries;
      if !c.entries[i].deleted && c.entries[i].id in ids {
        c.entries := c.entries[i := c.entries[i].(deleted := true)];
        c.deletedCount := c.deletedCount + 1;
        n := n + 1;
      }
      assert c.entries[..i] == before[..i] && c.entries[i + 1..] == before[i..][1..] == e[i..][1..] == e[i + 1..];
      LiveStep(e, i);
      LiveStep(c.entries, i);
      WithoutStep(Live(e[..i]), e[i], ids);
      i := i + 1;
    }
    assert e[..i] == e && c.entries[..i] == c.entries;
  }

  /** Mark the matching entries of every chunk along the chain. */
  method DeleteAll(head: Chunk?, ids: set<ID>, ghost cs: seq<Chunk>, ghost t0: Table)
    returns (deleted: int, ghost t: Table)
    requires Distinct(cs) && Linked(cs) && Holds(cs, t0) && head == At(cs, 0)
    modifies cs`entries, cs`deletedCount
    ensures Holds(cs, t) && HalfDeleted(t0, t, |t|, ids)
    ensures deleted == |Live(Flat(t0))| - |Live(Flat(t))|
  {
    hide Live, Flat, Without, Linked, HalfDeleted, Tombstoned, SameRows;
    deleted, t := 0, t0;
    var c := head;
    ghost var i := 0;
    BeginDelete(t0, ids);
    while c != null
      invariant 0 <= i <= |cs| && c == At(cs, i) && Linked(cs)
      invariant Holds(cs, t) && HalfDeleted(t0, t, i, ids)
      invariant deleted == |Live(Flat(t0))| - |Live(Flat(t))|
      decreases |cs| - i
    {
      var n := DeleteIn(c, ids);
      DeletedRow(t0, t, i, c.entries, ids);
      t := t[i := c.entries];
      deleted := deleted + n;
      NextLink(cs, i);
      c := c.next;
      i := i + 1;
    }
  }

  lemma LiveStep(rs: seq<Record>, i: nat)
    requires i < |rs|
    ensures Live(rs[..i + 1]) == Live(rs[..i]) + Seen(rs[i])
  {
    hide Live;
    assert rs[..i + 1] == rs[..i] + [rs[i]];
    LiveConcat(rs[..i], [rs[i]]);
    LiveOfOne(rs[i]);
  }

  lemma WithoutNone(ids: set<ID>)
    ensures Without([], ids) == []
  {
  }

  lemma WithoutStep(es: seq<Entry>, r: Record, ids: set<ID>)
    ensures Without(es + Seen(r), ids) == Without(es, ids) + (if r.id in ids then [] else Seen(r))
  {
    WithoutConcat(es, Seen(r), ids);
  }

  ghost predicate SameRows(t: Table, t': Table) {
    |t'| == |t| && forall i :: 0 <= i < |t| ==> |t'[i]| == |t[i]|
  }

  /** Rows below `i` have had the IDs removed, the rest are as they were. */
  ghost predicate HalfDeleted(t0: Table, t: Table, i: nat, ids: set<ID>) {
    && SameRows(t0, t) && i <= |t| && t[i..] == t0[i..]
    && Tombstoned(Flat(t0), Flat(t))
    && Live(Flat(t[..i])) == Without(Live(Flat(t0[..i])), ids)
  }

  lemma BeginDelete(t: Table, ids: set<ID>)
    ensures HalfDeleted(t, t, 0, ids)
  {
    assert t[..0] == [];
  }

  lemma DeletedRow(t0: Table, t: Table, i: nat, row: seq<Record>, ids: set<ID>)
    requires HalfDeleted(t0, t, i, ids) && i < |t| && Tombstoned(t[i], row)
    requires Live(row) == Without(Live(t[i]), ids)
    ensures HalfDeleted(t0, t[i := row], i + 1, ids)
    ensures |Live(Flat(t[i := row]))| - |Live(Flat(t))| == |Live(row)| - |Live(t[i])|
  {
    hide Live, Without;
    var t' := t[i := row];
    assert t[i] == t[i..][0] == t0[i..][0] == t0[i];
    assert t'[i + 1..] == t[i..][1..] == t0[i..][1..] == t0[i + 1..];
    SplitAt(t, i);
    SplitAt(t', i);
    SplitAt(t0, i);
    assert t'[..i] == t[..i] && t'[i + 1..] == t[i + 1..];
    WithoutConcat(Live(Flat(t0[..i])), Live(t0[i]), ids);
    TombstonedParts(Flat(t[..i]), t[i], row, Flat(t[i + 1..]));
    TombstonedTrans(Flat(t0), Flat(t), Flat(t'));
  }

  lemma SplitAt(t: Table, i: nat)
    requires i < |t|
    ensures Flat(t) == Flat(t[..i]) + t[i] + Flat(t[i + 1..])
    ensures Live(Flat(t)) == Live(Flat(t[..i])) + Live(t[i]) + Live(Flat(t[i + 1..]))
    ensures Flat(t[..i + 1]) == Flat(t[..i]) + t[i]
    ensures Live(Flat(t[..i + 1])) == Live(Flat(t[..i])) + Live(t[i])
  {
    hide Live, Flat;
    assert t == t[..i + 1] + t[i + 1..] && t[..i + 1][..i] == t[..i];
    FlatConcat(t[..i + 1], t[i + 1..]);
    FlatSnoc(t[..i + 1]);
    LiveConcat(Flat(t[..i]), t[i]);
    LiveConcat(Flat(t[..i]) + t[i], Flat(t[i + 1..]));
  }

  lemma TombstonedParts(a: seq<Record>, b: seq<Record>, b': seq<Record>, c: seq<Record>)
    requires Tombstoned(b, b')
    ensures Tombstoned(a + b + c, a + b' + c)
  {
  }

  lemma TombstonedTrans(a: seq<Record>, b: seq<Record>, c: seq<Record>)
    requires Tombstoned(a, b) && Tombstoned(b, c)
    ensures Tombstoned(a, c)
  {
  }

  lemma EndDelete(t0: Table, t: Table, length: int, lastID: ID, ids: set<ID>)
    requires HalfDeleted(t0, t, |t|, ids) && LogOk(Flat(t0), length, lastID)
    ensures LogOk(Flat(t), |Live(Flat(t))|, lastID) && length == |Live(Flat(t0))|
    ensures Live(Flat(t)) == Without(Live(Flat(t0)), ids)
    ensures Tombstoned(Flat(t0), Flat(t)) && SameRows(t0, t)
  {
    hide Live, Without, Flat;
    assert t[..|t|] == t && t0[..|t|] == t0;
    LogTombstoned(Flat(t0), Flat(t), length, lastID);
  }

  /** Hang a fresh chunk after the tail. */
  method LinkTail(ghost cs: seq<Chunk>, tail: Chunk?, c: Chunk)
    requires Distinct(cs) && Linked(cs) && tail == At(cs, |cs| - 1) && c !in cs
    requires c.prev == null && c.next == null
    modifies c`prev, cs`next
    ensures Distinct(cs + [c]) && Linked(cs + [c])
  {
    ghost var cs' := cs + [c];
    assert forall i :: 0 <= i < |cs| ==> cs'[i] == cs[i];
    if tail != null {
      tail.next := c;
      c.prev := tail;
    }
  }

  /** Mark the oldest live entries of a chunk deleted, at most `room` of them. */
  method MarkOldest(c: Chunk, room: int) returns (n: int)
    requires c.deletedCount == |c.entries| - |Live(c.entries)| && room > 0
    modifies c`entries, c`deletedCount
    ensures c.deletedCount == |c.entries| - |Live(c.entries)|
    ensures n == if |Live(old(c.entries))| < room then |Live(old(c.entries))| else room
    ensures Live(c.entries) == Live(old(c.entries))[n..]
    ensures Tombstoned(old(c.entries), c.entries)
  {
    hide Live;
    ghost var e := c.entries;
    n := 0;
    var i := 0;
    LiveOfNone();
    assert e[0..] == e;
    while i < |c.entries|
      invariant 0 <= i <= |e| == |c.entries| && 0 <= n < room
      invariant c.entries[i..] == e[i..] && Tombstoned(e, c.entries)
      invariant n <= |Live(e)| && Live(c.entries) == Live(e[i..]) == Live(e)[n..]
      invariant c.deletedCount == |e| - |Live(e)| + n
    {
      LiveOfOne(e[i]);
      assert e[i..] == [e[i]] + e[i + 1..];
      LiveConcat([e[i]], e[i + 1..]);
      if !c.entries[i].deleted {
        MarkedLive(c.entries, i);
        assert c.entries[i] == e[i];
        c.entries := c.entries[i := c.entries[i].(deleted := true)];
        c.deletedCount := c.deletedCount + 1;
        n := n + 1;
        assert c.entries[i + 1..] == e[i + 1..];
        if n == room { return; }
      } else {
        assert c.entries[i + 1..] == c.entries[i..][1..] == e[i..][1..] == e[i + 1..];
      }
      i := i + 1;
    }
    assert e[i..] == [];
  }

  /** When everything visible lies from `i` on and `i` itself is live, marking it drops the first entry. */
  lemma MarkedLive(rs: seq<Record>, i: nat)
    requires i < |rs| && !rs[i].deleted && Live(rs) == Live(rs[i..])
    ensures |Live(rs)| > 0 && Live(rs[i := rs[i].(deleted := true)]) == Live(rs)[1..] == Live(rs[i + 1..])
  {
    hide Live;
    var rs' := rs[i := rs[i].(deleted := true)];
    assert rs == rs[..i] + rs[i..] && rs[i..] == [rs[i]] + rs[i + 1..];
    assert rs' == rs[..i] + ([rs'[i]] + rs[i + 1..]);
    LiveConcat(rs[..i], rs[i..]);
    LiveConcat([rs[i]], rs[i + 1..]);
    LiveConcat(rs[..i], [rs'[i]] + rs[i + 1..]);
    LiveConcat([rs'[i]], rs[i + 1..]);
    LiveOfOne(rs[i]);
    LiveOfOne(rs'[i]);
  }

  /** The oldest records are gone, and others may have been marked since. */
  ghost predicate Aged(rs: seq<Record>, rs': seq<Record>) {
    |rs'| <= |rs| && forall k :: 0 <= k < |rs'| ==> rs'[k].id == rs[|rs| - |rs'| + k].id
  }

  lemma AgedSame(rs: seq<Record>)
    ensures Aged(rs, rs)
  {
  }

  lemma AgedMarked(a: seq<Record>, b: seq<Record>, c: seq<Record>)
    requires Aged(a, b) && Tombstoned(b, c)
    ensures Aged(a, c)
  {
  }

  lemma AgedDropped(a: seq<Record>, t: Table)
    requires |t| > 0 && Aged(a, Flat(t))
    ensures Aged(a, Flat(t[1..]))
  {
    hide Aged;
    AgedSuffix(a, t[0], Flat(t[1..]));
  }

  lemma AgedSuffix(a: seq<Record>, b: seq<Record>, c: seq<Record>)
    requires Aged(a, b + c)
    ensures Aged(a, c)
  {
    assert forall k :: 0 <= k < |c| ==> c[k] == (b + c)[|b| + k];
  }

  /** The log with one more record, in the last row or in one of its own. */
  ghost function Extended(t: Table, r: Record, fits: bool): Table {
    var n := |t| - 1;
    if n < 0 || |t[n]| >= MAX_CHUNK_ENTRIES || !fits then t + [[r]] else t[..n] + [t[n] + [r]]
  }

  /** Trimming the head row trims the whole log. */
  lemma HeadRowTrimmed(t: Table, row: seq<Record>, n: nat, length: int, lastID: ID)
    requires |t| > 0 && LogOk(Flat(t), length, lastID) && Tombstoned(t[0], row)
    requires n <= |Live(t[0])| && Live(row) == Live(t[0])[n..]
    ensures LogOk(Flat(t[0 := row]), length - n, lastID)
    ensures n <= |Live(Flat(t))| && Live(Flat(t[0 := row])) == Live(Flat(t))[n..]
    ensures Tombstoned(Flat(t), Flat(t[0 := row]))
  {
    hide Live;
    var rest := Flat(t[1..]);
    assert t[0 := row][1..] == t[1..];
    assert Flat(t) == t[0] + rest && Flat(t[0 := row]) == row + rest;
    LiveConcat(t[0], rest);
    LiveConcat(row, rest);
    LogTombstoned(t[0] + rest, row + rest, length, lastID);
  }

  /** Unhook the head chunk. */
  method UnlinkHead(ghost cs: seq<Chunk>, head: Chunk)
    requires Distinct(cs) && Linked(cs) && |cs| > 0 && head == cs[0]
    modifies cs`prev, cs`next
    ensures Distinct(cs[1..]) && Linked(cs[1..])
  {
    ghost var rest := cs[1..];
    assert forall i :: 0 <= i < |rest| ==> rest[i] == cs[i + 1];
    if head.next != null { head.next.prev := null; }
    head.prev, head.next := null, null;
  }

  class Stream {
    var head: Chunk?
    var tail: Chunk?
    var length: int
    var lastID: ID
    ghost var chunks: seq<Chunk>
    ghost var table: Table

    ghost predicate Shape()
      reads this, chunks
    {
      && Distinct(chunks) && Linked(chunks) && Holds(chunks, table)
      && head == At(chunks, 0) && tail == At(chunks, |chunks| - 1)
    }

    ghost predicate Valid()
      reads this, chunks
    {
      Shape() && LogOk(Flat(table), length, lastID)
    }

    /** What readers see. */
    ghost function Entries(): seq<Entry>
      reads this
    {
      Live(Flat(table))
    }

    constructor ()
      ensures Valid() && fresh(chunks) && Entries() == [] && table == [] && lastID == ID(0, 0)
    {
      head, tail, length, lastID := null, null, 0, ID(0, 0);
      chunks, table := [], [];
    }

    /** Start a new tail chunk. */
    method NewTail()
      requires Shape()
      modifies this`head, this`tail, this`chunks, this`table, chunks`next
      ensures Shape() && table == old(table) + [[]] && |chunks| == |old(chunks)| + 1
      ensures fresh(chunks[|chunks| - 1]) && chunks[..|chunks| - 1] == old(chunks)
    {
      hide Live, Flat, Linked, Distinct;
      var c := new Chunk();
      LiveOfNone();
      LinkTail(chunks, tail, c);
      if tail == null { head := c; }
      tail := c;
      chunks, table := chunks + [c], table + [[]];
    }

    /** Append a record to the tail chunk. */
    method Push(r: Record)
      requires Shape() && |chunks| > 0 && !r.deleted
      modifies this`table, tail`entries
      ensures Shape() && Flat(table) == Flat(old(table)) + [r]
      ensures var n := |old(table)| - 1; n >= 0 && table == old(table)[..n] + [old(table)[n] + [r]]
    {
      hide Live, Flat;
      ghost var n := |table| - 1;
      ghost var row := table[n];
      assert table == table[..n] + [row];
      LiveConcat(row, [r]);
      LiveOfOne(r);
      FlatLast(table[..n], row, r);
      tail.entries := tail.entries + [r];
      table := table[..n] + [row + [r]];
    }

    /** Drop the whole head chunk. */
    method DropHead()
      requires Valid() && |chunks| > 0
      modifies this`head, this`tail, this`length, this`chunks, this`table, chunks
      ensures Valid() && chunks == old(chunks)[1..] && lastID == old(lastID)
      ensures length == old(length) - |Live(old(table)[0])|
      ensures Entries() == old(Entries())[|Live(old(table)[0])|..] && table == old(table)[1..]
    {
      hide Live, LogOk;
      LogDropped(table[0], Flat(table[1..]), length, lastID);
      length := length - (|head.entries| - head.deletedCount);
      Unhook();
    }

    /** Take the head chunk off the chain and release it. */
    method Unhook()
      requires Shape() && |chunks| > 0
      modifies this`head, this`tail, this`chunks, this`table, chunks
      ensures Shape() && chunks == old(chunks)[1..] && table == old(table)[1..]
    {
      hide Live;
      var c, next := head, head.next;
      UnlinkHead(chunks, c);
      c.entries := [];
      head := next;
      if head == null { tail := null; }
      chunks, table := chunks[1..], table[1..];
    }

    /** Mark the oldest entries of the head chunk, down to `maxLen` visible entries in all. */
    method MarkHead(maxLen: int) returns (n: int)
      requires Valid() && |chunks| > 0 && length > maxLen
      modifies this`length, this`table, head`entries, head`deletedCount
      ensures Valid()
      ensures n == if |Live(old(table)[0])| < old(length) - maxLen then |Live(old(table)[0])| else old(length) - maxLen
      ensures length == old(length) - n && 0 <= n <= |old(Entries())| && Entries() == old(Entries())[n..]
      ensures |table| == |old(table)| && |Live(table[0])| == |Live(old(table)[0])| - n
      ensures Tombstoned(old(Flat(table)), Flat(table))
    {
      hide Live, Flat, LogOk;
      n := MarkOldest(head, length - maxLen);
      HeadRowTrimmed(table, head.entries, n, length, lastID);
      table := table[0 := head.entries];
      length := length - n;
    }

    /** Trim to the newest `maxLen` entries; dropping whole chunks changes the cost, not the result. */
    method Trim(maxLen: int, approx: bool) returns (deleted: int)
      requires Valid()
      modifies this`head, this`tail, this`length, this`chunks, this`table, chunks
      ensures Valid() && lastID == old(lastID)
      ensures forall i :: 0 <= i < |chunks| ==> chunks[i] in old(chunks)
      ensures Entries() == Newest(old(Entries()), maxLen)
      ensures deleted == |old(Entries())| - |Entries()|
      ensures Aged(old(Flat(table)), Flat(table))
    {
      hide Live, Flat, Stream.Valid, Aged, Tombstoned;
      Facts();
      deleted := 0;
      AgedSame(Flat(table));
      while length > maxLen && head != null
        invariant Valid() && lastID == old(lastID)
        invariant forall i :: 0 <= i < |chunks| ==> chunks[i] in old(chunks)
        invariant 0 <= deleted <= |old(Entries())| && Entries() == old(Entries())[deleted..]
        invariant deleted > 0 ==> length >= maxLen
        invariant length == |Entries()| && (head == null <==> |chunks| == 0)
        invariant Aged(old(Flat(table)), Flat(table))
        decreases |chunks|, length > maxLen
      {
        Facts();
        var active := |head.entries| - head.deletedCount;
        if approx && length - active >= maxLen {
          deleted := deleted + active;
          AgedDropped(old(Flat(table)), table);
          DropHead();
        } else {
          ghost var rs := Flat(table);
          var n := MarkHead(maxLen);
          AgedMarked(old(Flat(table)), rs, Flat(table));
          deleted := deleted + n;
          Facts();
          AgedDropped(old(Flat(table)), table);
          if |head.entries| - head.deletedCount == 0 { DropHead(); }
        }
        Facts();
      }
      Facts();
    }

    /** Append an entry, refusing an ID that is not larger while anything is visible. `fits`
        says whether the values still fit the tail chunk's arena. */
    method Add(id: ID, payload: Payload, maxLen: int, approx: bool, fits: bool) returns (ok: bool)
      requires Valid()
      modifies this, chunks
      ensures Valid() && forall i :: 0 <= i < |chunks| ==> chunks[i] in old(chunks) || fresh(chunks[i])
      ensures ok <==> (|old(Entries())| > 0 ==> Before(old(lastID), id))
      ensures !ok ==> Entries() == old(Entries()) && lastID == old(lastID)
      ensures ok ==> lastID == id
      ensures ok && maxLen <= 0 ==> Entries() == old(Entries()) + [Entry(id, payload)]
      ensures ok && maxLen > 0 ==> Entries() == Newest(old(Entries()) + [Entry(id, payload)], maxLen)
      ensures !ok ==> table == old(table)
      ensures ok && maxLen <= 0 ==> table == Extended(old(table), Record(id, payload, false), fits)
      ensures ok ==> Aged(old(Flat(table)) + [Record(id, payload, false)], Flat(table))
    {
      hide Live, Flat, LogOk, Linked, Holds, Distinct, Aged, Extended;
      Counted(Flat(table), length, lastID);
      if length > 0 && id.Compare(lastID) <= 0 { return false; }
      var r := Record(id, payload, false);
      LogAppended(Flat(table), length, lastID, r);
      Append(r, fits);
      lastID := id;
      length := length + 1;
      AgedSame(Flat(table));
      if maxLen > 0 && length > maxLen {
        var _ := Trim(maxLen, approx);
      }
      return true;
    }

    /** Put the record in the tail chunk, or in a fresh one when that is full. */
    method Append(r: Record, fits: bool)
      requires Shape() && !r.deleted
      modifies this`head, this`tail, this`chunks, this`table, chunks
      ensures Shape() && Flat(table) == Flat(old(table)) + [r] && table == Extended(old(table), r, fits)
      ensures forall i :: 0 <= i < |chunks| ==> chunks[i] in old(chunks) || fresh(chunks[i])
    {
      hide Live, Flat;
      if tail == null || |tail.entries| >= MAX_CHUNK_ENTRIES || !fits {
        FlatEmptyRow(table);
        NewTail();
        assert [] + [r] == [r] && (old(table) + [[]])[..|old(table)|] == old(table);
      }
      Push(r);
    }

    /** Forward range: exactly the matching live entries, oldest first, up to `count`. */
    method RangeForward(lo: ID, hi: ID, count: int) returns (result: seq<Entry>)
      requires Valid()
      ensures result == Take(Matching(Flat(table), lo, hi), count) == Take(Within(Entries(), lo, hi), count)
    {
      hide Live, Matching, Take, Within;
      MatchingVisible(Flat(table), lo, hi);
      result := [];
      var c := head;
      ghost var i := 0;
      assert table[0..] == table;
      assert [] + Matching(Flat(table), lo, hi) == Matching(Flat(table), lo, hi);
      while c != null
        invariant 0 <= i <= |chunks| && c == At(chunks, i) && Ordered(Flat(table[i..]))
        invariant count > 0 ==> |result| < count
        invariant Take(result + Matching(Flat(table[i..]), lo, hi), count) == Take(Matching(Flat(table), lo, hi), count)
        decreases |chunks| - i
      {
        ghost var later := Flat(table[i + 1..]);
        assert table[i..][1..] == table[i + 1..];
        assert Flat(table[i..]) == c.entries + later;
        OrderedParts(c.entries, later);
        if |c.entries| > 0 && Before(c.entries[|c.entries| - 1].id, lo) {
          ChunkBelow(c.entries, lo, hi);
          MatchingConcat(c.entries, later, lo, hi);
          assert Matching(c.entries + later, lo, hi) == Matching(later, lo, hi);
        } else {
          var done;
          result, done := ScanForward(c.entries, later, lo, hi, count, result);
          if done { TakeAll(result, count); return; }
        }
        c := c.next;
        i := i + 1;
      }
      assert table[i..] == [];
      NothingMatches(lo, hi);
      TakeAll(result, count);
    }

    /** Backward range, exactly as the walk with its chunk skip sees it. */
    method RangeBackward(hi: ID, lo: ID, count: int) returns (result: seq<Entry>)
      requires Valid()
      ensures result == Take(BackVisible(table, lo, hi), count)
    {
      hide Live, MatchingBack, Take;
      result := [];
      var c := tail;
      ghost var i := |chunks|;
      assert table[..i] == table;
      assert [] + BackVisible(table, lo, hi) == BackVisible(table, lo, hi);
      while c != null
        invariant 0 <= i <= |chunks| && c == At(chunks, i - 1) && Ordered(Flat(table[..i]))
        invariant count > 0 ==> |result| < count
        invariant Take(result + BackVisible(table[..i], lo, hi), count) == Take(BackVisible(table, lo, hi), count)
        decreases i
      {
        ghost var t := table[..i];
        assert t[..|t| - 1] == table[..i - 1];
        FlatSnoc(t);
        OrderedParts(Flat(table[..i - 1]), c.entries);
        if |c.entries| > 0 && Before(hi, c.entries[0].id) {
          assert BackVisible(t, lo, hi) == BackVisible(table[..i - 1], lo, hi);
        } else {
          EarlierBelow(Flat(table[..i - 1]), c.entries, table[..i - 1], lo, hi);
          var done;
          result, done := ScanBackward(c.entries, BackVisible(table[..i - 1], lo, hi), lo, hi, count, result);
          if done { TakeAll(result, count); return; }
        }
        c := c.prev;
        i := i - 1;
      }
      assert table[..i] == [];
      TakeAll(result, count);
    }

    /** Mark every visible entry with one of the IDs deleted. */
    method Delete(ids: set<ID>) returns (deleted: int)
      requires Valid()
      modifies this`length, this`table, chunks`entries, chunks`deletedCount
      ensures Valid()
      ensures Entries() == Without(old(Entries()), ids)
      ensures deleted == |old(Entries())| - |Entries()|
      ensures Tombstoned(old(Flat(table)), Flat(table)) && SameRows(old(table), table) && lastID == old(lastID)
    {
      hide Live, Flat, Without, LogOk, Linked, HalfDeleted, Distinct, Holds, Tombstoned, SameRows;
      ghost var t;
      deleted, t := DeleteAll(head, ids, chunks, table);
      EndDelete(table, t, length, lastID, ids);
      table := t;
      length := length - deleted;
    }

    /** What a walk along the chain relies on. */
    lemma Walk()
      requires Valid()
      ensures Ordered(Flat(table)) && |table| == |chunks| && head == At(chunks, 0)
    {
      hide Live;
    }

    lemma WalkStep(i: nat)
      requires Valid() && i < |chunks| && Ordered(Flat(table[i..]))
      ensures chunks[i].entries == table[i] && chunks[i].next == At(chunks, i + 1)
      ensures Flat(table[i..]) == table[i] + Flat(table[i + 1..])
      ensures Ordered(table[i] + Flat(table[i + 1..])) && Ordered(Flat(table[i + 1..]))
    {
      hide Live, LogOk, Distinct;
      assert table[i..][1..] == table[i + 1..];
      NextLink(chunks, i);
      OrderedParts(table[i], Flat(table[i + 1..]));
    }

    /** In every reachable state the visible entries are strictly increasing and counted. */
    lemma VisibleIncreasing()
      requires Valid()
      ensures StreamLog.Increasing(Entries()) && length == |Entries()|
    {
      hide Live;
      LiveIncreasing(Flat(table));
    }

    lemma Facts()
      requires Valid()
      ensures length == |Entries()| && |table| == |chunks| && head == At(chunks, 0)
      ensures head == null ==> Entries() == []
      ensures head != null ==> |head.entries| - head.deletedCount == |Live(table[0])| <= |Entries()|
    {
      hide Live, Flat;
      if head == null { NoChunks(table); } else { HeadCounts(table); }
    }
  }

  // ---------------------------------------------------------------------------
  // Reading.

  /** Collect from one chunk; `done` when the rest of the log cannot add to the result. */
  method ScanForward(es: seq<Record>, ghost later: seq<Record>, lo: ID, hi: ID, count: int, acc: seq<Entry>)
    returns (result: seq<Entry>, done: bool)
    requires Ordered(es + later) && (count > 0 ==> |acc| < count)
    ensures count > 0 ==> if done then |result| <= count else |result| < count
    ensures Take(result + (if done then [] else Matching(later, lo, hi)), count) == Take(acc + Matching(es + later, lo, hi), count)
  {
    hide Matching;
    result := acc;
    var k := 0;
    ghost var all := es + later;
    assert all[0..] == all;
    while k < |es|
      invariant 0 <= k <= |es| && (count > 0 ==> |result| < count)
      invariant Take(result + Matching(all[k..], lo, hi), count) == Take(acc + Matching(all, lo, hi), count)
    {
      MatchingSplit(all, k, lo, hi);
      if !es[k].deleted && !Before(es[k].id, lo) {
        if Before(hi, es[k].id) {
          NoMatch(all[k..], lo, hi);
          assert result + [] == result;
          return result, true;
        }
        result := result + [Entry(es[k].id, es[k].payload)];
        assert result + Matching(all[k + 1..], lo, hi) == result[..|result| - 1] + Matching(all[k..], lo, hi);
        if count > 0 && |result| >= count {
          assert Take(result + Matching(all[k + 1..], lo, hi), count) == result == Take(result + [], count);
          return result, true;
        }
      } else {
        assert [] + Matching(all[k + 1..], lo, hi) == Matching(all[k + 1..], lo, hi);
      }
      k := k + 1;
    }
    assert all[|es|..] == later;
    done := false;
  }

  lemma MatchingSplit(rs: seq<Record>, k: nat, lo: ID, hi: ID)
    requires k < |rs|
    ensures Matching(rs[k..], lo, hi) == SeenWithin(rs[k], lo, hi) + Matching(rs[k + 1..], lo, hi)
  {
    assert rs[k..][1..] == rs[k + 1..];
  }

  /** Every live record of a chunk lies at or before its last record, so one look may skip the chunk. */
  lemma ChunkBelow(es: seq<Record>, lo: ID, hi: ID)
    requires Ordered(es) && |es| > 0 && Before(es[|es| - 1].id, lo)
    ensures Matching(es, lo, hi) == []
  {
    forall k | 0 <= k < |es| && !es[k].deleted
      ensures Before(es[k].id, lo)
    {
      if k < |es| - 1 { BeforeTransitive(es[k].id, es[|es| - 1].id, lo); }
    }
    NoMatch(es, lo, hi);
  }

  /** What the backward walk sees: a chunk is skipped on the ID of its first record, deleted or not. */
  function BackVisible(t: Table, lo: ID, hi: ID): seq<Entry> {
    if t == [] then []
    else
      var row := t[|t| - 1];
      (if |row| > 0 && Before(hi, row[0].id) then [] else MatchingBack(row, lo, hi))
      + BackVisible(t[..|t| - 1], lo, hi)
  }

  /** Collect from one chunk backwards; `rest` is what the earlier chunks would add. */
  method ScanBackward(es: seq<Record>, ghost rest: seq<Entry>, lo: ID, hi: ID, count: int, acc: seq<Entry>)
    returns (result: seq<Entry>, done: bool)
    requires Ordered(es) && (count > 0 ==> |acc| < count)
    requires (exists k :: 0 <= k < |es| && !es[k].deleted && Before(es[k].id, lo)) ==> rest == []
    ensures count > 0 ==> if done then |result| <= count else |result| < count
    ensures Take(result + (if done then [] else rest), count) == Take(acc + (MatchingBack(es, lo, hi) + rest), count)
  {
    hide MatchingBack;
    result := acc;
    var k := |es|;
    assert es[..k] == es;
    while k > 0
      invariant 0 <= k <= |es| && (count > 0 ==> |result| < count)
      invariant Take(result + (MatchingBack(es[..k], lo, hi) + rest), count) == Take(acc + (MatchingBack(es, lo, hi) + rest), count)
    {
      k := k - 1;
      MatchingBackSplit(es, k, lo, hi);
      var r := es[k];
      if !r.deleted && !Before(hi, r.id) {
        if Before(r.id, lo) {
          NothingBefore(es, k, lo, hi);
          assert result + ([] + rest) == result + [];
          return result, true;
        }
        var e := Entry(r.id, r.payload);
        assert result + (([e] + MatchingBack(es[..k], lo, hi)) + rest)
            == (result + [e]) + (MatchingBack(es[..k], lo, hi) + rest);
        result := result + [e];
        if count > 0 && |result| >= count {
          assert Take(result + (MatchingBack(es[..k], lo, hi) + rest), count) == result == Take(result + [], count);
          return result, true;
        }
      } else {
        assert [] + MatchingBack(es[..k], lo, hi) == MatchingBack(es[..k], lo, hi);
      }
    }
    NoMatchBack([], lo, hi);
    assert es[..0] == [] && [] + rest == rest;
    done := false;
  }

  lemma MatchingBackSplit(rs: seq<Record>, k: nat, lo: ID, hi: ID)
    requires k < |rs|
    ensures MatchingBack(rs[..k + 1], lo, hi) == SeenWithin(rs[k], lo, hi) + MatchingBack(rs[..k], lo, hi)
  {
    assert rs[..k + 1][..k] == rs[..k];
  }

  /** Once a live record is below the range, so is everything before it. */
  lemma NothingBefore(rs: seq<Record>, k: nat, lo: ID, hi: ID)
    requires Ordered(rs) && k < |rs| && Before(rs[k].id, lo)
    ensures MatchingBack(rs[..k + 1], lo, hi) == []
  {
    forall j | 0 <= j < k && !rs[j].deleted
      ensures Before(rs[j].id, lo)
    {
      BeforeTransitive(rs[j].id, rs[k].id, lo);
    }
    NoMatchBack(rs[..k + 1], lo, hi);
  }

  lemma {:induction false} BackNothing(t: Table, lo: ID, hi: ID)
    requires Outside(Flat(t), lo, hi)
    ensures BackVisible(t, lo, hi) == []
    decreases |t|
  {
    hide MatchingBack, Outside, Flat;
    if t != [] {
      var n := |t| - 1;
      FlatSnoc(t);
      OutsideParts(Flat(t[..n]), t[n], lo, hi);
      NoMatchBack(t[n], lo, hi);
      BackNothing(t[..n], lo, hi);
    }
  }

  lemma OutsideParts(a: seq<Record>, b: seq<Record>, lo: ID, hi: ID)
    requires Outside(a + b, lo, hi)
    ensures Outside(a, lo, hi) && Outside(b, lo, hi)
  {
    assert forall k :: 0 <= k < |a| ==> a[k] == (a + b)[k];
    assert forall k :: 0 <= k < |b| ==> b[k] == (a + b)[|a| + k];
  }

  lemma FlatSnoc(t: Table)
    requires t != []
    ensures Flat(t) == Flat(t[..|t| - 1]) + t[|t| - 1]
  {
    var n := |t| - 1;
    assert t == t[..n] + [t[n]];
    FlatConcat(t[..n], [t[n]]);
    assert Flat([t[n]]) == t[n];
  }

  lemma EarlierBelow(a: seq<Record>, b: seq<Record>, t: Table, lo: ID, hi: ID)
    requires Ordered(a + b) && a == Flat(t)
    ensures (exists k :: 0 <= k < |b| && !b[k].deleted && Before(b[k].id, lo)) ==> BackVisible(t, lo, hi) == []
  {
    if k :| 0 <= k < |b| && !b[k].deleted && Before(b[k].id, lo) {
      forall j | 0 <= j < |a| && !a[j].deleted
        ensures Before(a[j].id, lo)
      {
        assert a[j] == (a + b)[j] && b[k] == (a + b)[|a| + k];
        BeforeTransitive(a[j].id, b[k].id, lo);
      }
      BackNothing(t, lo, hi);
    }
  }

  /** No chunk starts with a record above one of its live ones. */
  ghost predicate HeadsLow(t: Table) {
    forall i, k :: 0 <= i < |t| && 0 <= k < |t[i]| && !t[i][k].deleted ==> !Before(t[i][k].id, t[i][0].id)
  }

  /** Without restarts inside a chunk, the backward walk sees every matching entry. */
  lemma {:induction false} BackExact(t: Table, lo: ID, hi: ID)
    requires HeadsLow(t)
    ensures BackVisible(t, lo, hi) == MatchingBack(Flat(t), lo, hi)
    decreases |t|
  {
    if t != [] {
      var n := |t| - 1;
      FlatSnoc(t);
      MatchingBackConcat(Flat(t[..n]), t[n], lo, hi);
      BackExact(t[..n], lo, hi);
      if |t[n]| > 0 && Before(hi, t[n][0].id) {
        forall k | 0 <= k < |t[n]| && !t[n][k].deleted
          ensures Before(hi, t[n][k].id)
        {
          if t[n][k].id != t[n][0].id { BeforeTransitive(hi, t[n][0].id, t[n][k].id); }
        }
        NoMatchBack(t[n], lo, hi);
      }
    }
  }

  lemma {:induction false} BackVisibleConcat(a: Table, b: Table, lo: ID, hi: ID)
    ensures BackVisible(a + b, lo, hi) == BackVisible(b, lo, hi) + BackVisible(a, lo, hi)
    decreases |b|
  {
    hide MatchingBack;
    if b == [] {
      assert a + b == a;
    } else {
      BackVisibleConcat(a, b[..|b| - 1], lo, hi);
      assert (a + b)[..|a + b| - 1] == a + b[..|b| - 1];
    }
  }

  lemma MatchFound(rs: seq<Record>, k: nat)
    requires k < |rs| && !rs[k].deleted
    ensures MatchingBack(rs, rs[k].id, rs[k].id) != []
  {
    var x := rs[k].id;
    assert rs == rs[..k + 1] + rs[k + 1..];
    MatchingBackConcat(rs[..k + 1], rs[k + 1..], x, x);
    MatchingBackSplit(rs, k, x, x);
  }

  /** A live record behind a larger tombstone at the head of its chunk is there, and invisible
      to the backward query for exactly its own ID. */
  lemma BackMisses(t: Table, i: nat, k: nat)
    requires Ordered(Flat(t)) && i < |t| && k < |t[i]| && !t[i][k].deleted
    requires Before(t[i][k].id, t[i][0].id)
    ensures var x := t[i][k].id; BackVisible(t, x, x) == [] && MatchingBack(Flat(t), x, x) != []
  {
    hide BackVisible, MatchingBack, Flat;
    var x, a, row, b := t[i][k].id, t[..i], t[i], t[i + 1..];
    var fa, fb := Flat(a), Flat(b);
    assert t == a + ([row] + b);
    FlatConcat(a, [row] + b);
    FlatConcat([row], b);
    FlatOne(row);
    Surrounded(fa, row, fb, k);
    BackNothing(a, x, x);
    BackNothing(b, x, x);
    BackVisibleConcat(a, [row] + b, x, x);
    BackVisibleConcat([row], b, x, x);
    BackSkips(row, x);
    assert Flat(t)[|fa| + k] == row[k];
    MatchFound(Flat(t), |fa| + k);
  }

  lemma BackSkips(row: seq<Record>, x: ID)
    requires |row| > 0 && Before(x, row[0].id)
    ensures BackVisible([row], x, x) == []
  {
    assert [row][..0] == [];
  }

  /** Around a live record, live records are smaller before it and all are larger after it. */
  lemma Surrounded(a: seq<Record>, row: seq<Record>, b: seq<Record>, k: nat)
    requires Ordered(a + (row + b)) && k < |row| && !row[k].deleted
    ensures forall j :: 0 <= j < |a| && !a[j].deleted ==> Before(a[j].id, row[k].id)
    ensures forall j :: 0 <= j < |b| ==> Before(row[k].id, b[j].id)
  {
    var all := a + (row + b);
    assert all[|a| + k] == row[k];
    forall j | 0 <= j < |a| && !a[j].deleted ensures Before(a[j].id, row[k].id) { assert all[j] == a[j]; }
    forall j | 0 <= j < |b| ensures Before(row[k].id, b[j].id) { assert all[|a| + |row| + j] == b[j]; }
  }

  /** The backward range is right for every query exactly when no chunk restarts below its head. */
  lemma BackwardRightIffHeadsLow(t: Table)
    requires Ordered(Flat(t))
    ensures HeadsLow(t) <==> forall lo, hi :: BackVisible(t, lo, hi) == Reversed(Matching(Flat(t), lo, hi))
  {
    hide MatchingBack, Matching, BackVisible, Reversed;
    if HeadsLow(t) {
      forall lo, hi ensures BackVisible(t, lo, hi) == Reversed(Matching(Flat(t), lo, hi)) {
        BackExact(t, lo, hi);
        MatchingBackReverses(Flat(t), lo, hi);
      }
    } else {
      var i, k :| 0 <= i < |t| && 0 <= k < |t[i]| && !t[i][k].deleted && Before(t[i][k].id, t[i][0].id);
      var x := t[i][k].id;
      BackMisses(t, i, k);
      MatchingBackReverses(Flat(t), x, x);
    }
  }

  /** IDs that only went up, tombstones included. */
  ghost predicate Rising(rs: seq<Record>) {
    forall i, j :: 0 <= i < j < |rs| ==> Before(rs[i].id, rs[j].id)
  }

  /** Such a log has no such chunk. */
  lemma IncreasingHeadsLow(t: Table)
    requires Rising(Flat(t))
    ensures HeadsLow(t)
  {
    forall i, k | 0 <= i < |t| && 0 <= k < |t[i]|
      ensures !Before(t[i][k].id, t[i][0].id)
    {
      assert t == t[..i] + t[i..];
      FlatConcat(t[..i], t[i..]);
      var n := |Flat(t[..i])|;
      assert Flat(t)[n + k] == t[i][k] && Flat(t)[n + 0] == t[i][0];
    }
  }

  lemma OrderedParts(a: seq<Record>, b: seq<Record>)
    requires Ordered(a + b)
    ensures Ordered(a) && Ordered(b)
  {
    assert forall k :: 0 <= k < |b| ==> b[k] == (a + b)[|a| + k];
    assert forall k :: 0 <= k < |a| ==> a[k] == (a + b)[k];
  }

  lemma NothingMatches(lo: ID, hi: ID)
    ensures Matching(Flat([]), lo, hi) == []
  {
  }

  lemma TakeAll(es: seq<Entry>, count: int)
    ensures es + [] == es && (count <= 0 || |es| <= count ==> Take(es, count) == es)
  {
  }

  lemma Counted(rs: seq<Record>, length: int, lastID: ID)
    requires LogOk(rs, length, lastID)
    ensures length == |Live(rs)|
  {
  }

  lemma FlatEmptyRow(t: Table)
    ensures Flat(t + [[]]) == Flat(t)
  {
    FlatConcat(t, [[]]);
  }

  lemma HeadCounts(t: Table)
    requires |t| > 0
    ensures |Live(t[0])| <= |Live(Flat(t))|
  {
    LiveConcat(t[0], Flat(t[1..]));
  }

  lemma NoChunks(t: Table)
    ensures |t| == 0 ==> Live(Flat(t)) == []
  {
  }

  // ---------------------------------------------------------------------------
  // Whole runs.

  datatype Op =
    | Append(id: ID, payload: Payload, maxLen: int, approx: bool, fits: bool)
    | Cut(maxLen: int, approx: bool)
    | Remove(ids: set<ID>)

  datatype Log = Log(entries: seq<Entry>, lastID: ID)

  /** What an operation does to the visible entries. */
  function Apply(log: Log, op: Op): Log {
    match op
    case Append(id, payload, maxLen, _, _) =>
      var es := log.entries + [Entry(id, payload)];
      if |log.entries| > 0 && !Before(log.lastID, id) then log
      else Log(if maxLen > 0 then Newest(es, maxLen) else es, id)
    case Cut(maxLen, _) => log.(entries := Newest(log.entries, maxLen))
    case Remove(ids) => log.(entries := Without(log.entries, ids))
  }

  function Replay(ops: seq<Op>): Log {
    if ops == [] then Log([], ID(0, 0)) else Apply(Replay(ops[..|ops| - 1]), ops[|ops| - 1])
  }

  /** Every added ID exceeds all earlier ones. */
  ghost predicate Climbs(ops: seq<Op>) {
    forall i, j :: 0 <= i < j < |ops| && ops[i].Append? && ops[j].Append? ==> Before(ops[i].id, ops[j].id)
  }

  ghost predicate Adds(ops: seq<Op>, id: ID) {
    exists i :: 0 <= i < |ops| && ops[i].Append? && ops[i].id == id
  }

  /** The records of a run, tombstones included, came in by its operations and in their order. */
  ghost predicate Traced(rs: seq<Record>, ops: seq<Op>) {
    (forall k :: 0 <= k < |rs| ==> Adds(ops, rs[k].id)) && (Climbs(ops) ==> Rising(rs))
  }

  lemma AddsLonger(ops: seq<Op>, op: Op, id: ID)
    requires Adds(ops, id)
    ensures Adds(ops + [op], id)
  {
    var i :| 0 <= i < |ops| && ops[i].Append? && ops[i].id == id;
    assert (ops + [op])[i] == ops[i];
  }

  lemma TracedLonger(rs: seq<Record>, ops: seq<Op>, op: Op)
    requires Traced(rs, ops)
    ensures Traced(rs, ops + [op])
  {
    hide Adds, Climbs, Rising;
    forall k | 0 <= k < |rs| ensures Adds(ops + [op], rs[k].id) { AddsLonger(ops, op, rs[k].id); }
    if Climbs(ops + [op]) { ClimbsShorter(ops, op); }
  }

  lemma ClimbsShorter(ops: seq<Op>, op: Op)
    requires Climbs(ops + [op])
    ensures Climbs(ops) && (op.Append? ==> forall id :: Adds(ops, id) ==> Before(id, op.id))
  {
    assert forall i :: 0 <= i < |ops| ==> (ops + [op])[i] == ops[i];
    assert (ops + [op])[|ops|] == op;
  }

  lemma TracedAppend(rs: seq<Record>, ops: seq<Op>, op: Op, r: Record)
    requires Traced(rs, ops) && op.Append? && r.id == op.id
    ensures Traced(rs + [r], ops + [op])
  {
    TracedLonger(rs, ops, op);
    assert Adds(ops + [op], r.id) by { assert (ops + [op])[|ops|] == op; }
    hide Adds;
    if Climbs(ops + [op]) { ClimbsShorter(ops, op); }
    hide Climbs;
  }

  lemma TracedAged(rs: seq<Record>, rs': seq<Record>, ops: seq<Op>)
    requires Traced(rs, ops) && Aged(rs, rs')
    ensures Traced(rs', ops)
  {
    hide Adds, Climbs;
  }

  lemma AgedTombstoned(rs: seq<Record>, rs': seq<Record>)
    requires Tombstoned(rs, rs')
    ensures Aged(rs, rs')
  {
  }

  /** Any run shows exactly the replayed entries, and ranges both ways are right after one that climbs. */
  method Run(ops: seq<Op>) returns (s: Stream)
    ensures fresh(s) && s.Valid() && s.Entries() == Replay(ops).entries && s.lastID == Replay(ops).lastID
    ensures Climbs(ops) ==> forall lo, hi :: BackVisible(s.table, lo, hi) == Reversed(Matching(Flat(s.table), lo, hi))
  {
    hide Stream.Valid, Live, Flat, Traced, Aged, Tombstoned, Climbs, Extended, SameRows;
    s := new Stream();
    var i := 0;
    TracedNone(s.table);
    while i < |ops|
      invariant 0 <= i <= |ops| && fresh(s) && fresh(s.chunks) && s.Valid()
      invariant s.Entries() == Replay(ops[..i]).entries && s.lastID == Replay(ops[..i]).lastID
      invariant Traced(Flat(s.table), ops[..i])
    {
      assert ops[..i + 1][..i] == ops[..i] && ops[..i + 1] == ops[..i] + [ops[i]];
      ghost var rs := Flat(s.table);
      TracedLonger(rs, ops[..i], ops[i]);
      match ops[i] {
        case Append(id, payload, maxLen, approx, fits) =>
          TracedAppend(rs, ops[..i], ops[i], Record(id, payload, false));
          var ok := s.Add(id, payload, maxLen, approx, fits);
          if ok { TracedAged(rs + [Record(id, payload, false)], Flat(s.table), ops[..i + 1]); }
        case Cut(maxLen, approx) =>
          var _ := s.Trim(maxLen, approx);
          TracedAged(rs, Flat(s.table), ops[..i + 1]);
        case Remove(ids) =>
          var _ := s.Delete(ids);
          AgedTombstoned(rs, Flat(s.table));
          TracedAged(rs, Flat(s.table), ops[..i + 1]);
      }
      i := i + 1;
    }
    assert ops[..i] == ops;
    ClimbingRight(s, ops);
  }

  lemma TracedNone(t: Table)
    requires t == []
    ensures Traced(Flat(t), [])
  {
  }

  lemma ClimbingRight(s: Stream, ops: seq<Op>)
    requires s.Valid() && Traced(Flat(s.table), ops)
    ensures Climbs(ops) ==> forall lo, hi :: BackVisible(s.table, lo, hi) == Reversed(Matching(Flat(s.table), lo, hi))
  {
    hide Live, Flat, BackVisible, Matching, Climbs, Rising;
    if Climbs(ops) {
      IncreasingHeadsLow(s.table);
      BackwardRightIffHeadsLow(s.table);
    }
  }

  /** A second entry is taken exactly when its ID is larger as a number of milliseconds and sequence. */
  method AddTwo(a: ID, b: ID, p: Payload, q: Payload) returns (s: Stream, ok: bool)
    requires a.num < TWO_64 && b.num < TWO_64
    ensures fresh(s) && s.Valid() && (ok <==> a.ms * TWO_64 + a.num < b.ms * TWO_64 + b.num)
    ensures s.Entries() == [Entry(a, p)] + (if ok then [Entry(b, q)] else [])
  {
    hide Stream.Valid, Live, Flat, Aged, Extended;
    s := new Stream();
    var _ := s.Add(a, p, 0, false, true);
    BeforeIff(a, b);
    hide Before;
    ok := s.Add(b, q, 0, false, true);
  }

  /** A stream emptied and restarted at a smaller ID: the forward range finds the entry, the
      backward range over the same IDs does not. */
  method RestartHidesEntry() returns (s: Stream, forward: seq<Entry>, backward: seq<Entry>)
    ensures fresh(s) && s.Valid() && s.Entries() == [Entry(ID(5, 0), [])]
    ensures forward == [Entry(ID(5, 0), [])] && backward == []
  {
    hide Stream.Valid, Live, Flat, Matching, BackVisible;
    s := new Stream();
    var _ := s.Add(ID(10, 0), [], 0, false, true);
    ghost var t := s.table;
    var _ := s.Delete({ID(10, 0)});
    Emptied(t, s.table);
    var _ := s.Add(ID(5, 0), [], 0, false, true);
    Restarted(s.table);
    forward := s.RangeForward(ID(0, 0), ID(7, 0), 0);
    backward := s.RangeBackward(ID(7, 0), ID(0, 0), 0);
  }

  lemma Emptied(t: Table, t': Table)
    requires t == [[Record(ID(10, 0), [], false)]] && Tombstoned(Flat(t), Flat(t')) && SameRows(t, t')
    requires Live(Flat(t')) == Without(Live(Flat(t)), {ID(10, 0)})
    ensures Live(Flat(t')) == [] && |t'| == |t'[0]| == 1 && t'[0][0].id == ID(10, 0) && t'[0][0].deleted
  {
    FlatOne(t[0]);
    assert t' == [t'[0]];
    FlatOne(t'[0]);
    LiveOfOne(t[0][0]);
    assert t'[0] == [t'[0][0]];
    LiveOfOne(t'[0][0]);
  }

  lemma Restarted(t: Table)
    requires |t| == 1 && |t[0]| == 2 && t[0][0].id == ID(10, 0) && t[0][0].deleted && t[0][1] == Record(ID(5, 0), [], false)
    ensures Live(Flat(t)) == Matching(Flat(t), ID(0, 0), ID(7, 0)) == [Entry(ID(5, 0), [])]
    ensures BackVisible(t, ID(0, 0), ID(7, 0)) == []
  {
    var row := t[0];
    assert t == [row];
    FlatOne(row);
    assert row[1..] == [row[1]] && row[1..][1..] == [] && t[..0] == [];
    assert Live(row[1..]) == Matching(row[1..], ID(0, 0), ID(7, 0)) == [Entry(ID(5, 0), [])];
  }
}
