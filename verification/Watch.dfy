/** Optimistic transactions: WATCH, MULTI, EXEC over version counters that only run while
    somebody watches and are reclaimed when nobody does. Commands are atomic steps. */
module Watch {
  import opened Base

  type Key = Bytes

  const MODULUS: nat := 0x1_0000_0000_0000_0000   // counters are unsigned 64-bit

  function Get(m: map<Key, nat>, k: Key): nat {
    if k in m then m[k] else 0
  }

  function Next(v: nat): (n: nat)
    ensures n < MODULUS
  {
    (v + 1) % MODULUS
  }

  function Put(m: map<Key, nat>, k: Key, v: nat): map<Key, nat> {
    m[k := v]
  }

  /** A client's transaction state; `queued` are the keys its queued commands will write. */
  datatype Client = Client(inMulti: bool, watched: map<Key, nat>, dirty: bool, queued: seq<Key>)

  const IDLE: Client := Client(false, map[], false, [])

  datatype Verdict = NoMulti | Poisoned | Conflict | Committed

  function Watchers(cs: seq<Client>): nat {
    if cs == [] then 0 else Watchers(cs[..|cs| - 1]) + |cs[|cs| - 1].watched|
  }

  lemma {:induction false} WatchersUpdate(cs: seq<Client>, i: nat, c: Client)
    requires i < |cs|
    ensures Watchers(cs[i := c]) == Watchers(cs) - |cs[i].watched| + |c.watched|
    ensures Watchers(cs) >= |cs[i].watched|
    decreases |cs|
  {
    var n := |cs| - 1;
    if i < n {
      WatchersUpdate(cs[..n], i, c);
      assert cs[i := c][..n] == cs[..n][i := c];
    } else {
      assert cs[i := c][..n] == cs[..n];
    }
  }

  lemma WatchersSnoc(cs: seq<Client>, c: Client)
    ensures Watchers(cs + [c]) == Watchers(cs) + |c.watched|
  {
    assert (cs + [c])[..|cs|] == cs;
  }

  /** A shared counter and a private mark, against the count of every hit since the mark. */
  ghost predicate Tracks(versions: map<Key, nat>, watched: map<Key, nat>, total: map<Key, nat>, marks: map<Key, nat>) {
    forall k :: k in watched ==>
      && k in marks && marks[k] <= Get(total, k) && watched[k] < MODULUS
      && Get(versions, k) == (watched[k] + Hits(total, marks, k)) % MODULUS
  }

  /** How often a version-bumping write, expiry or flush hit the key since the client's latest WATCH of it. */
  ghost function Hits(total: map<Key, nat>, marks: map<Key, nat>, k: Key): int {
    Get(total, k) - (if k in marks then marks[k] else 0)
  }

  class System {
    var watchers: int
    var versions: map<Key, nat>
    var present: set<Key>             // keys in the database
    var clients: seq<Client>
    ghost var total: map<Key, nat>    // what counters that always run and are never reclaimed would say
    ghost var marks: seq<map<Key, nat>>   // per client and key, that count at the latest WATCH

    ghost predicate Valid()
      reads this
    {
      && watchers == Watchers(clients) && |marks| == |clients|
      && (forall k :: k in versions ==> versions[k] < MODULUS)
      && forall i :: 0 <= i < |clients| ==> Tracks(versions, clients[i].watched, total, marks[i])
    }

    constructor ()
      ensures Valid() && clients == [] && total == map[]
    {
      watchers, versions, present, clients := 0, map[], {}, [];
      total, marks := map[], [];
    }

    lemma NobodyWatches()
      requires Valid() && watchers == 0
      ensures forall i :: 0 <= i < |clients| ==> clients[i].watched == map[]
    {
      forall i | 0 <= i < |clients|
        ensures clients[i].watched == map[]
      {
        WatchersUpdate(clients, i, clients[i]);
      }
    }

    /** bumpVersion and Touch: count the write, but only while somebody watches. */
    method Bump(k: Key)
      requires Valid()
      modifies this`versions, this`total
      ensures Valid() && total == old(total)[k := Get(old(total), k) + 1]
    {
      hide Tracks, Next;
      ghost var counted := total[k := Get(total, k) + 1];
      if watchers > 0 {
        var bumped := versions[k := Next(Get(versions, k))];
        forall i | 0 <= i < |clients| ensures Tracks(bumped, clients[i].watched, counted, marks[i]) {
          TracksBump(versions, clients[i].watched, total, marks[i], k);
        }
        versions := bumped;
      } else {
        NobodyWatches();
        forall i | 0 <= i < |clients| ensures Tracks(versions, map[], counted, marks[i]) {
          TracksNothing(versions, counted, marks[i]);
        }
      }
      total := counted;
    }

    method Set(k: Key)
      requires Valid()
      modifies this`versions, this`total, this`present
      ensures Valid() && total == old(total)[k := Get(old(total), k) + 1] && present == old(present) + {k}
    {
      present := present + {k};
      Bump(k);
    }

    method Del(k: Key) returns (existed: bool)
      requires Valid()
      modifies this`versions, this`total, this`present
      ensures Valid() && existed == (k in old(present)) && present == old(present) - {k}
      ensures total == if existed then old(total)[k := Get(old(total), k) + 1] else old(total)
    {
      existed := k in present;
      if existed {
        present := present - {k};
        Bump(k);
      }
    }

    /** Lazy or active removal of a key whose deadline has passed. */
    method Expire(k: Key)
      requires Valid()
      modifies this`versions, this`total, this`present
      ensures Valid() && present == old(present) - {k} && total == old(total)[k := Get(old(total), k) + 1]
    {
      present := present - {k};
      Bump(k);
    }

    /** Every key in the database counts as written; with nobody watching the counters are dropped. */
    method FlushAll()
      requires Valid()
      modifies this`versions, this`total, this`present
      ensures Valid() && present == {}
      ensures forall k :: Get(total, k) == Get(old(total), k) + (if k in old(present) then 1 else 0)
    {
      if watchers > 0 {
        forall i | 0 <= i < |clients|
          ensures Tracks(BumpAll(versions, present), clients[i].watched, CountAll(total, present), marks[i])
        {
          TracksFlush(versions, clients[i].watched, total, marks[i], present);
        }
        versions := BumpAll(versions, present);
      } else {
        NobodyWatches();
        versions := map[];
      }
      total := CountAll(total, present);
      present := {};
    }

    method Connect()
      requires Valid()
      modifies this`clients, this`marks
      ensures Valid() && clients == old(clients) + [IDLE]
    {
      WatchersSnoc(clients, IDLE);
      clients := clients + [IDLE];
      marks := marks + [map[]];
    }

    /** Watch one key: register first, then read its version. Watching again moves the mark. */
    method WatchKey(i: nat, k: Key)
      requires Valid() && i < |clients|
      modifies this`watchers, this`clients, this`marks
      ensures Valid() && |clients| == |old(clients)|
      ensures marks == old(marks)[i := Put(old(marks)[i], k, Get(total, k))]
      ensures clients == old(clients)[i := old(clients)[i].(watched := old(clients)[i].watched[k := Get(versions, k)])]
    {
      hide Tracks;
      var c := clients[i];
      var c' := c.(watched := c.watched[k := Get(versions, k)]);
      WatchersUpdate(clients, i, c');
      AddedKey(c.watched, k, Get(versions, k));
      if k !in c.watched { watchers := watchers + 1; }
      clients := clients[i := c'];
      TracksWatch(versions, c.watched, total, marks[i], k);
      marks := marks[i := Put(marks[i], k, Get(total, k))];
    }

    /** WATCH is refused inside MULTI. */
    method WatchCommand(i: nat, keys: seq<Key>) returns (ok: bool)
      requires Valid() && i < |clients|
      modifies this`watchers, this`clients, this`marks
      ensures Valid() && |clients| == |old(clients)| && ok == !old(clients)[i].inMulti
      ensures !ok ==> clients == old(clients) && marks == old(marks)
      ensures ok ==> forall k :: k in keys ==> k in clients[i].watched && Hits(total, marks[i], k) == 0
      ensures forall k :: k !in keys ==> (k in clients[i].watched <==> k in old(clients)[i].watched)
      ensures forall k :: k !in keys ==> Hits(total, marks[i], k) == Hits(total, old(marks)[i], k)
      ensures forall j :: 0 <= j < |clients| && j != i ==> clients[j] == old(clients)[j] && marks[j] == old(marks)[j]
    {
      hide Tracks;
      if clients[i].inMulti { return false; }
      var n := 0;
      while n < |keys|
        invariant 0 <= n <= |keys| && Valid() && |clients| == |old(clients)|
        invariant forall k :: k in keys[..n] ==> k in clients[i].watched && Hits(total, marks[i], k) == 0
        invariant forall k :: k !in keys[..n] ==> (k in clients[i].watched <==> k in old(clients)[i].watched)
        invariant forall k :: k !in keys[..n] ==> Hits(total, marks[i], k) == Hits(total, old(marks)[i], k)
        invariant forall j :: 0 <= j < |clients| && j != i ==> clients[j] == old(clients)[j] && marks[j] == old(marks)[j]
      {
        assert keys[..n + 1] == keys[..n] + [keys[n]];
        WatchKey(i, keys[n]);
        n := n + 1;
      }
      assert keys[..n] == keys;
      return true;
    }

    /** Forget every watch of a client; the last one out drops the counters. */
    method ClearWatch(i: nat)
      requires Valid() && i < |clients|
      modifies this`watchers, this`clients, this`versions, this`marks
      ensures Valid() && clients == old(clients)[i := old(clients)[i].(watched := map[])]
      ensures marks == old(marks)
    {
      hide Tracks;
      forall j | 0 <= j < |clients| ensures Tracks(versions, map[], total, marks[j]) && Tracks(map[], map[], total, marks[j]) {
        TracksNothing(versions, total, marks[j]);
        TracksNothing(map[], total, marks[j]);
      }
      var c := clients[i];
      if |c.watched| > 0 {
        WatchersUpdate(clients, i, c.(watched := map[]));
        watchers := watchers - |c.watched|;
        clients := clients[i := c.(watched := map[])];
        if watchers <= 0 {
          forall j | 0 <= j < |clients|
            ensures clients[j].watched == map[]
          {
            WatchersUpdate(clients, j, clients[j]);
          }
          versions := map[];
        }
      } else {
        assert c == c.(watched := map[]);
      }
    }

    method Reset(i: nat)
      requires Valid() && i < |clients|
      modifies this`watchers, this`clients, this`versions, this`marks
      ensures Valid() && clients == old(clients)[i := IDLE] && marks == old(marks)
    {
      hide Tracks;
      ClearWatch(i);
      WatchersUpdate(clients, i, IDLE);
      clients := clients[i := IDLE];
    }

    /** UNWATCH also clears the poison mark. */
    method UnwatchCommand(i: nat)
      requires Valid() && i < |clients|
      modifies this`watchers, this`clients, this`versions, this`marks
      ensures Valid() && clients == old(clients)[i := old(clients)[i].(watched := map[], dirty := false)]
    {
      hide Tracks;
      ClearWatch(i);
      WatchersUpdate(clients, i, clients[i].(dirty := false));
      clients := clients[i := clients[i].(dirty := false)];
    }

    /** EXEC decides by the counters. Its verdict is the one counters that never stop and are
        never reclaimed would give: a conflict exactly when some watched key was hit since its
        latest WATCH, counted modulo 2^64. */
    method ExecCommand(i: nat) returns (verdict: Verdict)
      requires Valid() && i < |clients|
      modifies this`watchers, this`clients, this`versions, this`marks, this`total
      ensures Valid() && |clients| == |old(clients)|
      ensures verdict == old(AlwaysOnVerdict(i))
      ensures verdict == NoMulti ==> clients == old(clients)
      ensures verdict != NoMulti ==> clients == old(clients)[i := IDLE]
      ensures total == if verdict == Committed then CountWrites(old(total), old(clients)[i].queued) else old(total)
    {
      hide Tracks, Hits;
      if !clients[i].inMulti { return NoMulti; }
      if clients[i].dirty {
        Reset(i);
        return Poisoned;
      }
      SameVerdict(versions, clients[i].watched, total, marks[i]);
      if exists k :: k in clients[i].watched && Get(versions, k) != clients[i].watched[k] {
        Reset(i);
        return Conflict;
      }
      var queued := clients[i].queued;
      var n := 0;
      while n < |queued|
        invariant 0 <= n <= |queued| && Valid() && clients == old(clients) && marks == old(marks)
        invariant total == CountWrites(old(total), queued[..n])
      {
        assert queued[..n + 1][..n] == queued[..n];
        Bump(queued[n]);
        n := n + 1;
      }
      assert queued[..n] == queued;
      Reset(i);
      return Committed;
    }

    ghost function AlwaysOnVerdict(i: nat): Verdict
      requires i < |clients| && |marks| == |clients|
      reads this
    {
      if !clients[i].inMulti then NoMulti
      else if clients[i].dirty then Poisoned
      else if exists k :: k in clients[i].watched && Hits(total, marks[i], k) % MODULUS != 0 then Conflict
      else Committed
    }

    method MultiCommand(i: nat) returns (ok: bool)
      requires Valid() && i < |clients|
      modifies this`clients
      ensures Valid() && ok == !old(clients)[i].inMulti
      ensures clients == if ok then old(clients)[i := old(clients)[i].(inMulti := true, queued := [])] else old(clients)
    {
      hide Tracks;
      if clients[i].inMulti { return false; }
      WatchersUpdate(clients, i, clients[i].(inMulti := true, queued := []));
      clients := clients[i := clients[i].(inMulti := true, queued := [])];
      return true;
    }

    /** Queue a command that will write `k`; a command that fails to queue poisons instead. */
    method Queue(i: nat, k: Key, bad: bool)
      requires Valid() && i < |clients| && clients[i].inMulti
      modifies this`clients
      ensures Valid()
      ensures clients == old(clients)[i := if bad then old(clients)[i].(dirty := true)
                                           else old(clients)[i].(queued := old(clients)[i].queued + [k])]
    {
      hide Tracks;
      var c := if bad then clients[i].(dirty := true) else clients[i].(queued := clients[i].queued + [k]);
      WatchersUpdate(clients, i, c);
      clients := clients[i := c];
    }
  }

  ghost function CountWrites(total: map<Key, nat>, keys: seq<Key>): map<Key, nat> {
    if keys == [] then total
    else var t := CountWrites(total, keys[..|keys| - 1]); t[keys[|keys| - 1] := Get(t, keys[|keys| - 1]) + 1]
  }

  lemma AddedKey(m: map<Key, nat>, k: Key, v: nat)
    ensures |m[k := v]| == if k in m then |m| else |m| + 1
  {
    assert m[k := v].Keys == m.Keys + {k};
  }

  /** Counters agree with the mark exactly when the hits come to a multiple of the modulus. */
  lemma SameVerdict(versions: map<Key, nat>, watched: map<Key, nat>, total: map<Key, nat>, marks: map<Key, nat>)
    requires Tracks(versions, watched, total, marks)
    ensures forall k :: k in watched ==> (Get(versions, k) != watched[k] <==> Hits(total, marks, k) % MODULUS != 0)
    ensures forall k :: k in watched ==> Hits(total, marks, k) >= 0
  {
    forall k | k in watched
      ensures Get(versions, k) != watched[k] <==> Hits(total, marks, k) % MODULUS != 0
    {
      BackToStart(watched[k], Hits(total, marks, k));
    }
  }

  lemma BackToStart(v: nat, h: int)
    requires h >= 0 && v < MODULUS
    ensures (v + h) % MODULUS == v <==> h % MODULUS == 0
  {
    var q, r := h / MODULUS, h % MODULUS;
    assert h == q * MODULUS + r;
    if v + r < MODULUS {
      assert (v + h) % MODULUS == v + r;
    } else {
      assert (v + h) % MODULUS == v + r - MODULUS;
    }
  }

  function BumpAll(versions: map<Key, nat>, keys: set<Key>): map<Key, nat> {
    map k | k in versions.Keys + keys :: if k in keys then Next(Get(versions, k)) else Get(versions, k)
  }

  ghost function CountAll(total: map<Key, nat>, keys: set<Key>): map<Key, nat> {
    map k | k in total.Keys + keys :: if k in keys then Get(total, k) + 1 else Get(total, k)
  }

  lemma NextStep(v: nat, h: int)
    requires h >= 0
    ensures Next((v + h) % MODULUS) == (v + (h + 1)) % MODULUS
  {
  }

  lemma TracksBump(versions: map<Key, nat>, watched: map<Key, nat>, total: map<Key, nat>, marks: map<Key, nat>, k: Key)
    requires Tracks(versions, watched, total, marks)
    ensures Tracks(versions[k := Next(Get(versions, k))], watched, total[k := Get(total, k) + 1], marks)
  {
    if k in watched { NextStep(watched[k], Hits(total, marks, k)); }
  }

  lemma TracksWatch(versions: map<Key, nat>, watched: map<Key, nat>, total: map<Key, nat>, marks: map<Key, nat>, k: Key)
    requires Tracks(versions, watched, total, marks) && Get(versions, k) < MODULUS
    ensures Tracks(versions, watched[k := Get(versions, k)], total, Put(marks, k, Get(total, k)))
  {
  }

  lemma TracksNothing(versions: map<Key, nat>, total: map<Key, nat>, marks: map<Key, nat>)
    ensures Tracks(versions, map[], total, marks)
  {
  }

  lemma TracksFlush(versions: map<Key, nat>, watched: map<Key, nat>, total: map<Key, nat>, marks: map<Key, nat>, keys: set<Key>)
    requires Tracks(versions, watched, total, marks)
    ensures Tracks(BumpAll(versions, keys), watched, CountAll(total, keys), marks)
  {
    forall k | k in watched
      ensures Get(BumpAll(versions, keys), k) == (watched[k] + Hits(CountAll(total, keys), marks, k)) % MODULUS
    {
      NextStep(watched[k], Hits(total, marks, k));
    }
  }
}
