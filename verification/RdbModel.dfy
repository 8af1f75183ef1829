/** What a snapshot file says: a run of records folded into a keyspace. */
module RdbModel {
  import opened Base
  import opened Decimal
  import opened RdbFormat
  import opened SortedElements
  import P = Pairs

  const OP_AUX: byte := 250
  const OP_RESIZE: byte := 251
  const OP_EXPIRE_MS: byte := 252
  const OP_EXPIRE_SEC: byte := 253
  const OP_SELECT: byte := 254
  const OP_EOF: byte := 255

  /** A value as it is listed for writing; the second half of a sorted-set pair is the score text. */
  datatype Body =
    | Str(bytes: Bytes)
    | List(items: seq<Bytes>)
    | Set(members: seq<Bytes>)
    | Hash(fields: seq<P.Pair>)
    | ZSet(scored: seq<P.Pair>)

  function TypeByte(body: Body): byte {
    match body
    case Str(_) => 0
    case List(_) => 1
    case Set(_) => 2
    case ZSet(_) => 3
    case Hash(_) => 4
  }

  /** The strings written after the key, in order. */
  function Strings(body: Body): seq<Bytes> {
    match body
    case Str(b) => [b]
    case List(s) => s
    case Set(s) => s
    case Hash(ps) => P.Texts(ps)
    case ZSet(ps) => P.Texts(ps)
  }

  /** The element count written before them; a plain string has none. */
  function Count(body: Body): nat {
    match body
    case Str(_) => 1
    case List(s) => |s|
    case Set(s) => |s|
    case Hash(ps) => |ps|
    case ZSet(ps) => |ps|
  }

  function CountBytes(body: Body): Bytes
    requires Count(body) < TWO_64
  {
    if body.Str? then [] else EncodeLen(Count(body))
  }

  /** Reading the strings back under the type byte gives the same listing. */
  function Rebuild(kind: byte, strings: seq<Bytes>): (b: Option<Body>)
  {
    match kind
    case 0 => if |strings| == 1 then Some(Str(strings[0])) else None
    case 1 => Some(List(strings))
    case 14 => Some(List(strings))
    case 2 => Some(Set(strings))
    case 3 => Some(ZSet(P.FromTexts(strings)))
    case 5 => Some(ZSet(P.FromTexts(strings)))
    case 4 => Some(Hash(P.FromTexts(strings)))
    case _ => None
  }

  lemma RebuildStrings(body: Body)
    ensures Rebuild(TypeByte(body), Strings(body)) == Some(body)
  {
    hide P.Texts, P.FromTexts;
    if body.Hash? { P.TextsRead(body.fields); }
    if body.ZSet? { P.TextsRead(body.scored); }
  }

  // ---------------------------------------------------------------------------
  // The abstract keyspace.

  datatype Value =
    | VStr(bytes: Bytes)
    | VList(items: seq<Bytes>)
    | VSet(members: set<Bytes>)
    | VHash(fields: map<Bytes, Bytes>)
    | VZSet(scores: map<Member, Score>)

  function ScoreMap(ps: seq<P.Pair>, parse: Bytes -> Score): map<Member, Score> {
    if ps == [] then map[] else ScoreMap(ps[..|ps| - 1], parse)[ps[|ps| - 1].key := parse(ps[|ps| - 1].value)]
  }

  function ValueOf(body: Body, parse: Bytes -> Score): Value {
    match body
    case Str(b) => VStr(b)
    case List(s) => VList(s)
    case Set(s) => VSet(set m | m in s)
    case Hash(ps) => VHash(P.PairMap(ps))
    case ZSet(ps) => VZSet(ScoreMap(ps, parse))
  }

  /** What a key holds: texts in some order, or a sorted set whose scores are yet to be printed. */
  datatype Obj = Texts(body: Body) | Scores(elements: seq<Element>)

  function HeldValue(obj: Obj, parse: Bytes -> Score): Value {
    match obj
    case Texts(body) => ValueOf(body, parse)
    case Scores(es) => VZSet(MapOf(es))
  }

  function PrintScores(es: seq<Element>, format: Score -> Bytes): seq<P.Pair> {
    if es == [] then []
    else PrintScores(es[..|es| - 1], format) + [P.Pair(es[|es| - 1].member, format(es[|es| - 1].score))]
  }

  function Print(obj: Obj, format: Score -> Bytes): Body {
    match obj
    case Texts(body) => body
    case Scores(es) => ZSet(PrintScores(es, format))
  }

  /** Every score reads back as itself. */
  ghost predicate Printable(obj: Obj, format: Score -> Bytes, parse: Bytes -> Score) {
    obj.Scores? ==> forall i :: 0 <= i < |obj.elements| ==> parse(format(obj.elements[i].score)) == obj.elements[i].score
  }

  lemma {:induction false} ScoresRead(es: seq<Element>, format: Score -> Bytes, parse: Bytes -> Score)
    requires forall i :: 0 <= i < |es| ==> parse(format(es[i].score)) == es[i].score
    ensures ScoreMap(PrintScores(es, format), parse) == MapOf(es)
    decreases |es|
  {
    if es != [] {
      var n := |es| - 1;
      ScoresRead(es[..n], format, parse);
      var ps, p := PrintScores(es[..n], format), P.Pair(es[n].member, format(es[n].score));
      assert (ps + [p])[..|ps + [p]| - 1] == ps;
    }
  }

  /** Printing and reading back changes nothing about a value. */
  lemma PrintReads(obj: Obj, format: Score -> Bytes, parse: Bytes -> Score)
    requires Printable(obj, format, parse)
    ensures ValueOf(Print(obj, format), parse) == HeldValue(obj, parse)
  {
    if obj.Scores? { ScoresRead(obj.elements, format, parse); }
  }

  /** What a listing stands for: its text, its items in order, its members, and what each field or member has. */
  lemma ValueMeans(body: Body, parse: Bytes -> Score)
    ensures body.Str? ==> ValueOf(body, parse) == VStr(body.bytes)
    ensures body.List? ==> ValueOf(body, parse) == VList(body.items)
    ensures body.Set? ==> ValueOf(body, parse).VSet? && forall x :: x in ValueOf(body, parse).members <==> x in body.members
    ensures body.Hash? && P.Distinct(body.fields) ==>
              ValueOf(body, parse).VHash? && P.Holds(body.fields, ValueOf(body, parse).fields)
    ensures body.ZSet? && P.Distinct(body.scored) ==>
              ValueOf(body, parse).VZSet? && ScoresHeld(body.scored, ValueOf(body, parse).scores, parse)
  {
    if body.Hash? && P.Distinct(body.fields) { P.PairMapHeld(body.fields); }
    if body.ZSet? && P.Distinct(body.scored) { ScoreMapHeld(body.scored, parse); }
    hide P.PairMap, ScoreMap, P.Distinct;
  }

  /** `m` has each member of `ps` with the score its text reads as, and no other. */
  ghost predicate ScoresHeld(ps: seq<P.Pair>, m: map<Member, Score>, parse: Bytes -> Score) {
    && (forall i :: 0 <= i < |ps| ==> ps[i].key in m && m[ps[i].key] == parse(ps[i].value))
    && (forall k :: k in m ==> exists i :: 0 <= i < |ps| && ps[i].key == k)
  }

  lemma {:induction false} ScoreMapHeld(ps: seq<P.Pair>, parse: Bytes -> Score)
    requires P.Distinct(ps)
    ensures ScoresHeld(ps, ScoreMap(ps, parse), parse)
    decreases |ps|
  {
    if ps != [] {
      var n := |ps| - 1;
      var front, m := ps[..n], ScoreMap(ps, parse);
      ScoreMapHeld(front, parse);
      forall i | 0 <= i < |ps| ensures ps[i].key in m && m[ps[i].key] == parse(ps[i].value) {
        if i < n { assert front[i] == ps[i] && ps[i].key != ps[n].key; }
      }
      forall k | k in m ensures exists i :: 0 <= i < |ps| && ps[i].key == k {
        if k == ps[n].key { assert ps[n].key == k; } else { var i :| 0 <= i < n && front[i].key == k; assert ps[i].key == k; }
      }
    }
  }

  /** A stored key; deadline 0 means none. */
  datatype Stored = Stored(value: Value, deadline: int)

  type Keyspace = map<Bytes, Stored>

  // ---------------------------------------------------------------------------
  // Deadlines go through a nanosecond duration in a signed 64-bit integer.

  /** The deadline stored for `ttl` milliseconds from `now`. */
  function Deadline(now: int, ttl: int): int {
    now + Wrap64(ttl * 1_000_000) / 1_000_000
  }

  const MAX_TTL_MS: int := 9_223_372_036_854

  /** The deadline survives exactly when the remaining time fits a duration, about 292 years. */
  lemma DeadlineExact(now: int, expireAt: int)
    requires expireAt > now
    ensures Deadline(now, expireAt - now) == expireAt <==> expireAt - now <= MAX_TTL_MS
  {
    var x := (expireAt - now) * 1_000_000;
    if expireAt - now <= MAX_TTL_MS {
      assert x <= MAX_INT64;
      assert Wrap64(x) == x;
    } else {
      assert x > MAX_INT64 >= Wrap64(x);
      assert Wrap64(x) / 1_000_000 < x / 1_000_000;
    }
  }

  // ---------------------------------------------------------------------------
  // Records.

  datatype Rec = Aux(name: Bytes, text: Bytes) | Select(db: nat) | Expire(at: nat) | Object(key: Bytes, body: Body)

  /** What the loader carries from record to record. */
  datatype LoadState = LoadState(keys: Keyspace, expireAt: int)

  function Store(keys: Keyspace, key: Bytes, value: Value, expireAt: int, now: int): Keyspace {
    if expireAt <= 0 then keys[key := Stored(value, 0)]
    else if expireAt - now > 0 then keys[key := Stored(value, Deadline(now, expireAt - now))]
    else keys
  }

  function ApplyRec(st: LoadState, r: Rec, now: int, parse: Bytes -> Score): LoadState {
    match r
    case Aux(_, _) => st
    case Select(_) => st
    case Expire(at) => st.(expireAt := at)
    case Object(key, body) => LoadState(Store(st.keys, key, ValueOf(body, parse), st.expireAt, now), 0)
  }

  function ApplyRecs(st: LoadState, rs: seq<Rec>, now: int, parse: Bytes -> Score): LoadState
    decreases |rs|
  {
    if rs == [] then st else ApplyRecs(ApplyRec(st, rs[0], now, parse), rs[1..], now, parse)
  }

  lemma {:induction false} ApplyRecsConcat(st: LoadState, a: seq<Rec>, b: seq<Rec>, now: int, parse: Bytes -> Score)
    ensures ApplyRecs(st, a + b, now, parse) == ApplyRecs(ApplyRecs(st, a, now, parse), b, now, parse)
    decreases |a|
  {
    hide ApplyRec;
    if a == [] {
      assert a + b == b;
    } else {
      assert (a + b)[0] == a[0] && (a + b)[1..] == a[1..] + b;
      ApplyRecsConcat(ApplyRec(st, a[0], now, parse), a[1..], b, now, parse);
    }
  }

  /** One key as it is listed for writing. */
  datatype Listing = Listing(key: Bytes, body: Body, expireAt: int)

  function RecsOf(e: Listing): seq<Rec> {
    (if e.expireAt > 0 then [Expire(e.expireAt)] else []) + [Object(e.key, e.body)]
  }

  /** Loading one entry: expired ones are dropped, the others stored. */
  function LoadEntry(keys: Keyspace, e: Listing, now: int, parse: Bytes -> Score): Keyspace {
    Store(keys, e.key, ValueOf(e.body, parse), e.expireAt, now)
  }

  function LoadEntries(keys: Keyspace, es: seq<Listing>, now: int, parse: Bytes -> Score): Keyspace {
    if es == [] then keys else LoadEntry(LoadEntries(keys, es[..|es| - 1], now, parse), es[|es| - 1], now, parse)
  }

  lemma RecsOfEntry(keys: Keyspace, e: Listing, now: int, parse: Bytes -> Score)
    ensures ApplyRecs(LoadState(keys, 0), RecsOf(e), now, parse) == LoadState(LoadEntry(keys, e, now, parse), 0)
  {
    hide Store, ValueOf;
    var st, o := LoadState(keys, 0), Object(e.key, e.body);
    if e.expireAt > 0 {
      assert RecsOf(e) == [Expire(e.expireAt), o] && RecsOf(e)[1..] == [o] && [o][1..] == [];
      assert ApplyRecs(LoadState(keys, e.expireAt), [o], now, parse) == ApplyRec(LoadState(keys, e.expireAt), o, now, parse);
    } else {
      assert RecsOf(e) == [o] && [o][1..] == [];
      assert Store(keys, e.key, ValueOf(e.body, parse), e.expireAt, now) == Store(keys, e.key, ValueOf(e.body, parse), 0, now) by {
        SameWithoutDeadline(keys, e.key, ValueOf(e.body, parse), e.expireAt, now);
      }
    }
  }

  lemma SameWithoutDeadline(keys: Keyspace, key: Bytes, v: Value, at: int, now: int)
    requires at <= 0
    ensures Store(keys, key, v, at, now) == Store(keys, key, v, 0, now)
  {
  }

  /** What becomes of a deadline: one that has passed loses the key. */
  predicate Late(expireAt: int, now: int) {
    0 < expireAt <= now
  }

  function Kept(expireAt: int, now: int): int {
    if expireAt <= 0 then 0 else Deadline(now, expireAt - now)
  }

  /** None, or not yet passed and not further off than a duration can say. */
  predicate Loadable(expireAt: int, now: int) {
    expireAt == 0 || (expireAt > 0 && 0 < expireAt - now <= MAX_TTL_MS)
  }

  /** A deadline comes back exactly when it is loadable. */
  lemma KeptIffLoadable(expireAt: int, now: int)
    ensures !Late(expireAt, now) && Kept(expireAt, now) == expireAt <==> Loadable(expireAt, now)
  {
    if 0 < expireAt && now < expireAt { DeadlineExact(now, expireAt); }
  }

  /** What loading a list of entries leaves. */
  ghost predicate Restored(keys: Keyspace, ls: seq<Listing>, now: int, parse: Bytes -> Score) {
    && (forall i :: 0 <= i < |ls| ==> (ls[i].key in keys <==> !Late(ls[i].expireAt, now)))
    && (forall i :: 0 <= i < |ls| && ls[i].key in keys ==>
          keys[ls[i].key] == Stored(ValueOf(ls[i].body, parse), Kept(ls[i].expireAt, now)))
    && (forall k :: k in keys ==> exists i :: 0 <= i < |ls| && ls[i].key == k)
  }

  ghost predicate DistinctKeys(ls: seq<Listing>) {
    forall i, j :: 0 <= i < j < |ls| ==> ls[i].key != ls[j].key
  }

  /** Distinct keys come back with their values, whatever the others are. */
  lemma {:induction false} LoadRebuilds(ls: seq<Listing>, now: int, parse: Bytes -> Score)
    requires DistinctKeys(ls)
    ensures Restored(LoadEntries(map[], ls, now, parse), ls, now, parse)
    decreases |ls|
  {
    hide ValueOf, Restored;
    if ls == [] {
      RestoredNothing(now, parse);
    } else {
      var front := ls[..|ls| - 1];
      assert forall i :: 0 <= i < |front| ==> front[i] == ls[i];
      LoadRebuilds(front, now, parse);
      RestoredSnoc(LoadEntries(map[], front, now, parse), ls, now, parse);
    }
  }

  lemma RestoredNothing(now: int, parse: Bytes -> Score)
    ensures Restored(map[], [], now, parse)
  {
  }

  lemma RestoredSnoc(keys: Keyspace, ls: seq<Listing>, now: int, parse: Bytes -> Score)
    requires |ls| > 0 && DistinctKeys(ls) && Restored(keys, ls[..|ls| - 1], now, parse)
    ensures Restored(LoadEntry(keys, ls[|ls| - 1], now, parse), ls, now, parse)
  {
    hide ValueOf, Kept, Restored, DistinctKeys, Late;
    var n := |ls| - 1;
    var front, e := ls[..n], ls[n];
    var keys', put := LoadEntry(keys, e, now, parse), Stored(ValueOf(e.body, parse), Kept(e.expireAt, now));
    StoreIs(keys, e.key, ValueOf(e.body, parse), e.expireAt, now);
    NotBefore(keys, ls, now, parse);
    assert keys' == if Late(e.expireAt, now) then keys else keys[e.key := put];
    RestoredMore(keys, keys', ls, now, parse);
  }

  lemma StoreIs(keys: Keyspace, key: Bytes, v: Value, at: int, now: int)
    ensures Store(keys, key, v, at, now) == if Late(at, now) then keys else keys[key := Stored(v, Kept(at, now))]
  {
    hide Deadline;
  }

  lemma NotBefore(keys: Keyspace, ls: seq<Listing>, now: int, parse: Bytes -> Score)
    requires |ls| > 0 && DistinctKeys(ls) && Restored(keys, ls[..|ls| - 1], now, parse)
    ensures ls[|ls| - 1].key !in keys
    ensures forall i :: 0 <= i < |ls| - 1 ==> ls[i].key != ls[|ls| - 1].key
  {
    hide ValueOf, Late, Kept;
  }

  lemma RestoredMore(keys: Keyspace, keys': Keyspace, ls: seq<Listing>, now: int, parse: Bytes -> Score)
    requires |ls| > 0 && Restored(keys, ls[..|ls| - 1], now, parse) && ls[|ls| - 1].key !in keys
    requires forall i :: 0 <= i < |ls| - 1 ==> ls[i].key != ls[|ls| - 1].key
    requires var e := ls[|ls| - 1];
             keys' == if Late(e.expireAt, now) then keys else keys[e.key := Stored(ValueOf(e.body, parse), Kept(e.expireAt, now))]
    ensures Restored(keys', ls, now, parse)
  {
    hide ValueOf, Late, Kept;
    var front, e := ls[..|ls| - 1], ls[|ls| - 1];
    forall i | 0 <= i < |front| ensures ls[i] == front[i] { }
    forall k | k in keys' ensures exists i :: 0 <= i < |ls| && ls[i].key == k {
      if k == e.key {
        assert ls[|ls| - 1].key == k;
      } else {
        var i :| 0 <= i < |front| && front[i].key == k;
        assert ls[i].key == k;
      }
    }
  }

  /** One key of the snapshot. */
  datatype DBEntry = DBEntry(key: Bytes, obj: Obj, expireAt: int)

  function ListingOf(e: DBEntry, format: Score -> Bytes): Listing {
    Listing(e.key, Print(e.obj, format), e.expireAt)
  }

  function Listings(es: seq<DBEntry>, format: Score -> Bytes): (ls: seq<Listing>)
    ensures |ls| == |es| && forall i :: 0 <= i < |es| ==> ls[i] == ListingOf(es[i], format)
  {
    seq(|es|, i requires 0 <= i < |es| => ListingOf(es[i], format))
  }

  /** No field or member is listed twice. */
  ghost predicate Sound(obj: Obj) {
    match obj
    case Texts(Set(s)) => forall i, j :: 0 <= i < j < |s| ==> s[i] != s[j]
    case Texts(Hash(ps)) => P.Distinct(ps)
    case Texts(ZSet(ps)) => P.Distinct(ps)
    case Texts(_) => true
    case Scores(es) => forall i, j :: 0 <= i < j < |es| ==> es[i].member != es[j].member
  }

  /** The entries are those of the keyspace, each once. */
  ghost predicate Snapshot(es: seq<DBEntry>, keys: Keyspace, parse: Bytes -> Score) {
    && (forall i :: 0 <= i < |es| ==> Sound(es[i].obj))
    && (forall i, j :: 0 <= i < j < |es| ==> es[i].key != es[j].key)
    && (forall i :: 0 <= i < |es| ==> es[i].key in keys && keys[es[i].key] == Stored(HeldValue(es[i].obj, parse), es[i].expireAt))
    && (forall k :: k in keys ==> exists i :: 0 <= i < |es| && es[i].key == k)
  }

  /** Loading what was listed of a keyspace gives that keyspace exactly when every deadline is loadable. */
  lemma SnapshotLoads(es: seq<DBEntry>, keys: Keyspace, now: int, format: Score -> Bytes, parse: Bytes -> Score)
    requires Snapshot(es, keys, parse) && forall i :: 0 <= i < |es| ==> Printable(es[i].obj, format, parse)
    ensures LoadEntries(map[], Listings(es, format), now, parse) == keys <==>
            forall i :: 0 <= i < |es| ==> Loadable(es[i].expireAt, now)
  {
    hide ValueOf, HeldValue, Print, Printable, LoadEntries, Listings, Late, Kept, Loadable;
    var ls := Listings(es, format);
    var back := LoadEntries(map[], ls, now, parse);
    forall i | 0 <= i < |es| ensures ValueOf(ls[i].body, parse) == HeldValue(es[i].obj, parse) {
      PrintReads(es[i].obj, format, parse);
    }
    LoadRebuilds(ls, now, parse);
    if forall i :: 0 <= i < |es| ==> Loadable(es[i].expireAt, now) {
      forall k | k in keys || k in back ensures k in keys && k in back && keys[k] == back[k] {
        if k in keys {
          var i :| 0 <= i < |es| && es[i].key == k;
          assert ls[i].key == k;
          KeptIffLoadable(es[i].expireAt, now);
        }
      }
    } else {
      var i :| 0 <= i < |es| && !Loadable(es[i].expireAt, now);
      KeptIffLoadable(es[i].expireAt, now);
      assert ls[i].key == es[i].key;
    }
  }

  /** A deadline one millisecond too far off does not come back. */
  lemma FarDeadlineLost(key: Bytes, text: Bytes, now: int, format: Score -> Bytes, parse: Bytes -> Score)
    requires now > 0
    ensures var at := now + MAX_TTL_MS + 1;
            var es, keys := [DBEntry(key, Texts(Str(text)), at)], map[key := Stored(VStr(text), at)];
            Snapshot(es, keys, parse) && LoadEntries(map[], Listings(es, format), now, parse) != keys
  {
    var at := now + MAX_TTL_MS + 1;
    var es, keys := [DBEntry(key, Texts(Str(text)), at)], map[key := Stored(VStr(text), at)];
    assert es[0].key == key && keys[key] == Stored(HeldValue(es[0].obj, parse), at);
    assert !Loadable(es[0].expireAt, now);
    SnapshotLoads(es, keys, now, format, parse);
    hide LoadEntries, Listings, Loadable;
  }
}
