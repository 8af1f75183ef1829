/** Consumer groups: one delivery cursor, a pending list, and per-consumer pending lists. */
module Groups {
  import opened Base
  import opened StreamLog
  import S = Stream

  type Name = Bytes

  datatype Nack = Nack(consumer: Name, time: int, count: nat)

  /** A consumer's own pending list; only membership in it is ever asked. */
  datatype Consumer = Consumer(activeTime: int, pel: set<ID>)

  /** Its list without one ID. */
  function Released(c: Consumer, id: ID): Consumer {
    c.(pel := c.pel - {id})
  }

  /** The consumer seen at `now` with these IDs more on its list; the others stay as they are. */
  function Listed(cs: map<Name, Consumer>, name: Name, ids: set<ID>, now: int): map<Name, Consumer> {
    cs[name := Consumer(now, (if name in cs then cs[name].pel else {}) + ids)]
  }

  ghost function IdsOf(es: seq<Entry>): set<ID> {
    set e | e in es :: e.id
  }

  /** These entries and no others have become pending, delivered once to `name` at `now`. */
  ghost predicate Granted(pel: map<ID, Nack>, pel': map<ID, Nack>, ids: set<ID>, name: Name, now: int) {
    && pel'.Keys == pel.Keys + ids
    && (forall x :: x in ids ==> pel'[x] == Nack(name, now, 1))
    && (forall x :: x in pel && x !in ids ==> pel'[x] == pel[x])
  }

  /** What a read leaves: with NOACK nothing, otherwise every entry pending for the reader and on its list. */
  ghost predicate HandedOver(pel: map<ID, Nack>, pel': map<ID, Nack>, cs: map<Name, Consumer>, cs': map<Name, Consumer>,
                             es: seq<Entry>, name: Name, noAck: bool, now: int)
  {
    if noAck || es == [] then pel' == pel && cs' == cs
    else Granted(pel, pel', IdsOf(es), name, now) && cs' == Listed(cs, name, IdsOf(es), now)
  }

  lemma HandedOverNone(pel: map<ID, Nack>, cs: map<Name, Consumer>, name: Name, noAck: bool, now: int)
    ensures HandedOver(pel, pel, cs, cs, [], name, noAck, now)
  {
  }

  lemma HandedOverNext(pel: map<ID, Nack>, pel': map<ID, Nack>, cs: map<Name, Consumer>, cs': map<Name, Consumer>,
                       es: seq<Entry>, e: Entry, name: Name, noAck: bool, now: int)
    requires HandedOver(pel, pel', cs, cs', es, name, noAck, now)
    ensures if noAck then HandedOver(pel, pel', cs, cs', es + [e], name, noAck, now)
            else HandedOver(pel, pel'[e.id := Nack(name, now, 1)], cs, Listed(cs', name, {e.id}, now), es + [e], name, noAck, now)
  {
    IdsSnoc(es, e);
    NoIds();
    hide IdsOf, Listed;
    if es == [] {
      assert {} + {e.id} == {e.id};
    } else {
      ListedTwice(cs, name, IdsOf(es), {e.id}, now);
    }
  }

  lemma ListedTwice(cs: map<Name, Consumer>, name: Name, a: set<ID>, b: set<ID>, now: int)
    ensures Listed(Listed(cs, name, a, now), name, b, now) == Listed(cs, name, a + b, now)
  {
    var own := if name in cs then cs[name].pel else {};
    assert own + a + b == own + (a + b);
  }

  lemma IdsSnoc(es: seq<Entry>, e: Entry)
    ensures IdsOf(es + [e]) == IdsOf(es) + {e.id}
  {
    forall x ensures x in IdsOf(es + [e]) <==> x in IdsOf(es) || x == e.id {
      if x in IdsOf(es) { var y :| y in es && y.id == x; assert y in es + [e]; }
      if x == e.id { assert e in es + [e]; }
    }
  }

  lemma NoIds()
    ensures IdsOf([]) == {}
  {
  }

  /** One hand-over of a new message. */
  datatype Delivery = Delivery(id: ID, noAck: bool)

  /** The IDs that were handed over and must be acknowledged. */
  ghost function Owed(ds: seq<Delivery>): set<ID> {
    set d | d in ds && !d.noAck :: d.id
  }

  lemma OwedSnoc(ds: seq<Delivery>, d: Delivery)
    ensures Owed(ds + [d]) == Owed(ds) + (if d.noAck then {} else {d.id})
  {
    forall x ensures x in Owed(ds + [d]) <==> x in Owed(ds) || (!d.noAck && x == d.id) {
      if x in Owed(ds) {
        var e :| e in ds && !e.noAck && e.id == x;
        assert e in ds + [d];
      }
      if !d.noAck && x == d.id { assert d in ds + [d]; }
    }
  }

  /** The live entries after `last`. */
  function After(rs: seq<Record>, last: ID): seq<Entry> {
    if rs == [] then [] else SeenAfter(rs[0], last) + After(rs[1..], last)
  }

  function SeenAfter(r: Record, last: ID): seq<Entry> {
    if !r.deleted && Before(last, r.id) then [Entry(r.id, r.payload)] else []
  }

  /** Past a delivered live record, moving the cursor onto it changes nothing. */
  lemma {:induction false} AfterMoved(rs: seq<Record>, last: ID, id: ID)
    requires Before(last, id) && forall k :: 0 <= k < |rs| && !rs[k].deleted ==> Before(id, rs[k].id)
    ensures After(rs, id) == After(rs, last)
    decreases |rs|
  {
    if rs != [] {
      if !rs[0].deleted { BeforeTransitive(last, id, rs[0].id); }
      AfterMoved(rs[1..], last, id);
    }
  }

  ghost predicate CursorOk(ds: seq<Delivery>, last: ID) {
    && (forall i, j :: 0 <= i < j < |ds| ==> Before(ds[i].id, ds[j].id))
    && (forall i :: 0 <= i < |ds| ==> !Before(last, ds[i].id))
  }

  ghost predicate Owned(pel: map<ID, Nack>, consumers: map<Name, Consumer>) {
    forall x :: x in pel ==> pel[x].consumer in consumers && x in consumers[pel[x].consumer].pel
  }

  class ConsumerGroup {
    var lastDelivered: ID
    var pel: map<ID, Nack>
    var consumers: map<Name, Consumer>
    ghost var delivered: seq<Delivery>   // every new-message hand-over, in order
    ghost var acked: set<ID>             // every ID an acknowledgement took off the list

    /** New messages go out in strictly increasing order whoever asks; what must be acknowledged
        is exactly what has been or is still pending; every pending entry is on its owner's list. */
    ghost predicate Valid()
      reads this
    {
      && CursorOk(delivered, lastDelivered)
      && Owed(delivered) == pel.Keys + acked && pel.Keys !! acked
      && Owned(pel, consumers)
    }

    constructor (start: ID)
      ensures Valid() && lastDelivered == start && pel == map[] && delivered == [] && acked == {}
    {
      lastDelivered, pel, consumers := start, map[], map[];
      delivered, acked := [], {};
    }

    method GetOrCreateConsumer(name: Name, now: int)
      modifies this`consumers
      ensures name in consumers && consumers[name].activeTime == now
      ensures consumers[name].pel == if name in old(consumers) then old(consumers)[name].pel else {}
      ensures consumers == old(consumers)[name := consumers[name]]
    {
      var own := if name in consumers then consumers[name].pel else {};
      consumers := consumers[name := Consumer(now, own)];
    }

    /** Put an ID on the pending lists, or hand an already pending one to `name`. */
    method AddPending(name: Name, id: ID, now: int)
      requires Owned(pel, consumers)
      modifies this`pel, this`consumers
      ensures Owned(pel, consumers)
      ensures id in pel && pel[id].consumer == name && pel[id].time == now
      ensures pel[id].count == if id in old(pel) then old(pel)[id].count + 1 else 1
      ensures pel == old(pel)[id := pel[id]]
      ensures consumers == Listed(old(consumers), name, {id}, now)
    {
      GetOrCreateConsumer(name, now);
      var count := if id in pel then pel[id].count + 1 else 1;
      pel := pel[id := Nack(name, now, count)];
      consumers := consumers[name := consumers[name].(pel := consumers[name].pel + {id})];
    }

    /** Acknowledge one ID. */
    method Ack(id: ID) returns (ok: bool)
      requires Valid()
      modifies this`pel, this`consumers, this`acked
      ensures Valid()
      ensures ok <==> id in old(pel)
      ensures pel == old(pel) - {id} && acked == old(acked) + (if ok then {id} else {})
      ensures !ok ==> consumers == old(consumers)
      ensures ok ==> var owner := old(pel)[id].consumer;
                     && owner in old(consumers)
                     && consumers == old(consumers)[owner := Released(old(consumers)[owner], id)]
    {
      if id !in pel { return false; }
      var owner := pel[id].consumer;
      pel := pel - {id};
      consumers := consumers[owner := Released(consumers[owner], id)];
      acked := acked + {id};
      return true;
    }

    /** Hand one new message to a consumer. */
    method DeliverOne(name: Name, id: ID, noAck: bool, now: int)
      requires Valid() && Before(lastDelivered, id)
      modifies this
      ensures Valid() && lastDelivered == id && acked == old(acked)
      ensures delivered == old(delivered) + [Delivery(id, noAck)]
      ensures noAck ==> pel == old(pel) && consumers == old(consumers)
      ensures !noAck ==> pel == old(pel)[id := Nack(name, now, 1)] && consumers == Listed(old(consumers), name, {id}, now)
    {
      Fresh(id);
      OwedSnoc(delivered, Delivery(id, noAck));
      if !noAck { AddPending(name, id, now); }
      lastDelivered := id;
      delivered := delivered + [Delivery(id, noAck)];
      assert CursorOk(delivered, lastDelivered) by {
        forall i | 0 <= i < |old(delivered)|
          ensures Before(old(delivered)[i].id, id)
        {
          CompareTotal(old(lastDelivered), old(delivered)[i].id, old(lastDelivered));
          if old(delivered)[i].id != old(lastDelivered) { BeforeTransitive(old(delivered)[i].id, old(lastDelivered), id); }
        }
      }
    }

    /** An ID past the cursor has never been handed over. */
    lemma Fresh(id: ID)
      requires Valid() && Before(lastDelivered, id)
      ensures id !in Owed(delivered) && id !in pel && id !in acked
    {
    }
  }

  // ---------------------------------------------------------------------------
  // Reading a stream through a group.

  ghost function Deliveries(es: seq<Entry>, noAck: bool): (ds: seq<Delivery>)
    ensures |ds| == |es| && forall k :: 0 <= k < |es| ==> ds[k] == Delivery(es[k].id, noAck)
  {
    seq(|es|, k requires 0 <= k < |es| => Delivery(es[k].id, noAck))
  }

  lemma DeliveriesConcat(a: seq<Entry>, b: seq<Entry>, noAck: bool)
    requires a <= b
    ensures Deliveries(a, noAck) + Deliveries(b[|a|..], noAck) == Deliveries(b, noAck)
  {
  }

  lemma AfterSplit(rs: seq<Record>, k: nat, last: ID)
    requires k < |rs|
    ensures After(rs[k..], last) == SeenAfter(rs[k], last) + After(rs[k + 1..], last)
  {
    assert rs[k..][1..] == rs[k + 1..];
  }

  lemma AfterMovedAt(rs: seq<Record>, k: nat, last: ID)
    requires Ordered(rs) && k < |rs| && !rs[k].deleted && Before(last, rs[k].id)
    ensures After(rs[k + 1..], rs[k].id) == After(rs[k + 1..], last)
  {
    AfterMoved(rs[k + 1..], last, rs[k].id);
  }

  /** Moving one entry from what is to come to what has been collected. */
  lemma Grown(acc: seq<Entry>, before: seq<Entry>, e: Entry, rest: seq<Entry>, count: int, noAck: bool)
    requires acc <= before
    ensures Take(before + ([e] + rest), count) == Take(before + [e] + rest, count)
    ensures count == |before| + 1 ==> Take(before + [e] + rest, count) == Take(before + [e] + [], count)
    ensures Deliveries((before + [e])[|acc|..], noAck) == Deliveries(before[|acc|..], noAck) + [Delivery(e.id, noAck)]
  {
    assert before + ([e] + rest) == before + [e] + rest;
    assert (before + [e])[|acc|..] == before[|acc|..] + [e];
  }

  /** Hand over the undelivered entries of one chunk. */
  method DeliverChunk(cg: ConsumerGroup, es: seq<Record>, ghost later: seq<Record>, name: Name, count: int,
                      noAck: bool, now: int, acc: seq<Entry>, ghost pel0: map<ID, Nack>, ghost cs0: map<Name, Consumer>)
    returns (result: seq<Entry>, done: bool)
    requires cg.Valid() && Ordered(es + later) && (count > 0 ==> |acc| < count)
    requires HandedOver(pel0, cg.pel, cs0, cg.consumers, acc, name, noAck, now)
    modifies cg
    ensures cg.Valid() && cg.acked == old(cg.acked)
    ensures HandedOver(pel0, cg.pel, cs0, cg.consumers, result, name, noAck, now)
    ensures acc <= result && cg.delivered == old(cg.delivered) + Deliveries(result[|acc|..], noAck)
    ensures !Before(cg.lastDelivered, old(cg.lastDelivered))
    ensures done ==> count > 0 && |result| == count
    ensures !done && count > 0 ==> |result| < count
    ensures Take(result + (if done then [] else After(later, cg.lastDelivered)), count)
         == Take(acc + After(es + later, old(cg.lastDelivered)), count)
  {
    hide After, Deliveries, Take, ConsumerGroup.Valid, Ordered, HandedOver, Listed;
    result := acc;
    ghost var all := es + later;
    assert all[0..] == all;
    var k := 0;
    while k < |es|
      invariant 0 <= k <= |es| && cg.Valid() && cg.acked == old(cg.acked)
      invariant HandedOver(pel0, cg.pel, cs0, cg.consumers, result, name, noAck, now)
      invariant count > 0 ==> |result| < count
      invariant acc <= result && cg.delivered == old(cg.delivered) + Deliveries(result[|acc|..], noAck)
      invariant !Before(cg.lastDelivered, old(cg.lastDelivered))
      invariant Take(result + After(all[k..], cg.lastDelivered), count) == Take(acc + After(all, old(cg.lastDelivered)), count)
    {
      ghost var last, before := cg.lastDelivered, result;
      AfterSplit(all, k, last);
      assert all[k] == es[k];
      if !es[k].deleted && Before(cg.lastDelivered, es[k].id) {
        var e := Entry(es[k].id, es[k].payload);
        HandedOverNext(pel0, cg.pel, cs0, cg.consumers, result, e, name, noAck, now);
        result := result + [e];
        cg.DeliverOne(name, es[k].id, noAck, now);
        AfterMovedAt(all, k, last);
        Grown(acc, before, e, After(all[k + 1..], last), count, noAck);
        if count > 0 && |result| >= count { return result, true; }
      } else {
        assert [] + After(all[k + 1..], last) == After(all[k + 1..], last);
      }
      k := k + 1;
    }
    assert all[|es|..] == later;
    done := false;
  }

  /** New messages: exactly the first `count` live entries past the group's cursor. */
  method ReadNew(s: S.Stream, cg: ConsumerGroup, name: Name, count: int, noAck: bool, now: int)
    returns (result: seq<Entry>)
    requires s.Valid() && cg.Valid()
    modifies cg
    ensures cg.Valid() && cg.acked == old(cg.acked)
    ensures result == Take(After(Flat(s.table), old(cg.lastDelivered)), count)
    ensures cg.delivered == old(cg.delivered) + Deliveries(result, noAck)
    ensures HandedOver(old(cg.pel), cg.pel, old(cg.consumers), cg.consumers, result, name, noAck, now)
    ensures result == Take(Filter(s.Entries(), (e: Entry) => Before(old(cg.lastDelivered), e.id)), count)
  {
    hide After, Take, Flat, Deliveries, ConsumerGroup.Valid, S.Stream.Valid, HandedOver, Live, Filter;
    ghost var pel0, cs0 := cg.pel, cg.consumers;
    HandedOverNone(pel0, cs0, name, noAck, now);
    AfterVisible(Flat(s.table), cg.lastDelivered);
    s.Walk();
    result := [];
    var c := s.head;
    ghost var i := 0;
    assert s.table[0..] == s.table;
    assert [] + After(Flat(s.table), cg.lastDelivered) == After(Flat(s.table), cg.lastDelivered);
    while c != null
      invariant 0 <= i <= |s.chunks| && c == S.At(s.chunks, i) && Ordered(Flat(s.table[i..]))
      invariant cg.Valid() && cg.acked == old(cg.acked)
      invariant HandedOver(pel0, cg.pel, cs0, cg.consumers, result, name, noAck, now)
      invariant count > 0 ==> |result| < count
      invariant cg.delivered == old(cg.delivered) + Deliveries(result, noAck)
      invariant Take(result + After(Flat(s.table[i..]), cg.lastDelivered), count)
             == Take(After(Flat(s.table), old(cg.lastDelivered)), count)
      decreases |s.chunks| - i
    {
      ghost var later, before := Flat(s.table[i + 1..]), result;
      s.WalkStep(i);
      var done;
      result, done := DeliverChunk(cg, c.entries, later, name, count, noAck, now, result, pel0, cs0);
      DeliveriesConcat(before, result, noAck);
      if done { S.TakeAll(result, count); return; }
      c := c.next;
      i := i + 1;
    }
    assert s.table[i..] == [];
    AfterNothing(cg.lastDelivered);
    S.TakeAll(result, count);
  }

  lemma {:induction false} AfterVisible(rs: seq<Record>, last: ID)
    ensures After(rs, last) == Filter(Live(rs), (e: Entry) => Before(last, e.id))
    decreases |rs|
  {
    if rs != [] {
      AfterVisible(rs[1..], last);
      if rs[0].deleted {
        assert [] + Live(rs[1..]) == Live(rs[1..]) && [] + After(rs[1..], last) == After(rs[1..], last);
      } else {
        assert Live(rs)[1..] == Live(rs[1..]);
      }
    }
  }

  lemma AfterNothing(last: ID)
    ensures After(Flat([]), last) == []
  {
  }

  /** The live entries past `start` whose ID is in `ids`. */
  function Held(rs: seq<Record>, start: ID, ids: set<ID>): seq<Entry> {
    if rs == [] then [] else SeenHeld(rs[0], start, ids) + Held(rs[1..], start, ids)
  }

  function SeenHeld(r: Record, start: ID, ids: set<ID>): seq<Entry> {
    if !r.deleted && Before(start, r.id) && r.id in ids then [Entry(r.id, r.payload)] else []
  }

  lemma {:induction false} HeldVisible(rs: seq<Record>, start: ID, ids: set<ID>)
    ensures Held(rs, start, ids) == Filter(Live(rs), (e: Entry) => Before(start, e.id) && e.id in ids)
    decreases |rs|
  {
    if rs != [] {
      HeldVisible(rs[1..], start, ids);
      if rs[0].deleted {
        assert [] + Live(rs[1..]) == Live(rs[1..]) && [] + Held(rs[1..], start, ids) == Held(rs[1..], start, ids);
      } else {
        assert Live(rs)[1..] == Live(rs[1..]);
      }
    }
  }

  lemma HeldSplit(rs: seq<Record>, k: nat, start: ID, ids: set<ID>)
    requires k < |rs|
    ensures Held(rs[k..], start, ids) == SeenHeld(rs[k], start, ids) + Held(rs[k + 1..], start, ids)
  {
    assert rs[k..][1..] == rs[k + 1..];
  }

  method HeldChunk(es: seq<Record>, ghost later: seq<Record>, start: ID, ids: set<ID>, count: int, acc: seq<Entry>)
    returns (result: seq<Entry>, done: bool)
    requires count > 0 ==> |acc| < count
    ensures done ==> count > 0 && |result| == count
    ensures !done && count > 0 ==> |result| < count
    ensures Take(result + (if done then [] else Held(later, start, ids)), count) == Take(acc + Held(es + later, start, ids), count)
  {
    hide Held;
    result := acc;
    ghost var all := es + later;
    assert all[0..] == all;
    var k := 0;
    while k < |es|
      invariant 0 <= k <= |es| && (count > 0 ==> |result| < count)
      invariant Take(result + Held(all[k..], start, ids), count) == Take(acc + Held(all, start, ids), count)
    {
      HeldSplit(all, k, start, ids);
      ghost var before := result;
      if !es[k].deleted && Before(start, es[k].id) && es[k].id in ids {
        var e := Entry(es[k].id, es[k].payload);
        result := result + [e];
        assert before + ([e] + Held(all[k + 1..], start, ids)) == result + Held(all[k + 1..], start, ids);
        if count > 0 && |result| >= count {
          assert Take(result + Held(all[k + 1..], start, ids), count) == result == Take(result + [], count);
          return result, true;
        }
      } else {
        assert [] + Held(all[k + 1..], start, ids) == Held(all[k + 1..], start, ids);
      }
      k := k + 1;
    }
    assert all[|es|..] == later;
    done := false;
  }

  /** Replay of a consumer's own pending entries past `start`. */
  method ReadHistory(s: S.Stream, cg: ConsumerGroup, name: Name, start: ID, count: int, now: int)
    returns (result: seq<Entry>)
    requires s.Valid() && cg.Valid()
    modifies cg`consumers
    ensures cg.Valid()
    ensures cg.consumers == Listed(old(cg.consumers), name, {}, now)
    ensures var ids := if name in old(cg.consumers) then old(cg.consumers)[name].pel else {};
            result == Take(Filter(s.Entries(), (e: Entry) => Before(start, e.id) && e.id in ids), count)
  {
    hide Held, Take, Flat, S.Stream.Valid, Live, Filter;
    s.Walk();
    cg.GetOrCreateConsumer(name, now);
    var ids := cg.consumers[name].pel;
    HeldVisible(Flat(s.table), start, ids);
    assert ids + {} == ids;
    result := [];
    var c := s.head;
    ghost var i := 0;
    assert s.table[0..] == s.table;
    assert [] + Held(Flat(s.table), start, ids) == Held(Flat(s.table), start, ids);
    while c != null
      invariant 0 <= i <= |s.chunks| && c == S.At(s.chunks, i) && Ordered(Flat(s.table[i..]))
      invariant count > 0 ==> |result| < count
      invariant Take(result + Held(Flat(s.table[i..]), start, ids), count) == Take(Held(Flat(s.table), start, ids), count)
      modifies {}
      decreases |s.chunks| - i
    {
      s.WalkStep(i);
      var done;
      result, done := HeldChunk(c.entries, Flat(s.table[i + 1..]), start, ids, count, result);
      if done { S.TakeAll(result, count); return; }
      c := c.next;
      i := i + 1;
    }
    assert s.table[i..] == [];
    HeldNothing(start, ids);
    S.TakeAll(result, count);
  }

  lemma HeldNothing(start: ID, ids: set<ID>)
    ensures Held(Flat([]), start, ids) == []
  {
  }

  /** How often a claim counts an ID as delivered: once it is the claimer's it is idle no more, which only
      keeps a positive limit from claiming it again. */
  function Times(x: ID, ids: seq<ID>, minIdle: int): nat {
    if minIdle > 0 then (if x in ids then 1 else 0) else multiset(ids)[x]
  }

  ghost predicate Idle(pel: map<ID, Nack>, x: ID, minIdle: int, now: int) {
    x in pel && now - pel[x].time >= minIdle
  }

  /** The named entries that were idle long enough are the claimer's, counted again and seen at `now`. */
  ghost predicate Moved(pel: map<ID, Nack>, pel': map<ID, Nack>, ids: seq<ID>, claimed: set<ID>, name: Name, minIdle: int, now: int) {
    && pel'.Keys == pel.Keys && (forall x :: x in claimed <==> x in ids && Idle(pel, x, minIdle, now))
    && (forall x :: x in claimed ==> pel'[x] == Nack(name, now, pel[x].count + Times(x, ids, minIdle)))
    && (forall x :: x in pel && x !in claimed ==> pel'[x] == pel[x])
  }

  lemma MovedNext(pel: map<ID, Nack>, pel': map<ID, Nack>, ids: seq<ID>, id: ID, claimed: set<ID>, name: Name, minIdle: int, now: int)
    requires Moved(pel, pel', ids, claimed, name, minIdle, now)
    ensures if Idle(pel', id, minIdle, now)
            then Moved(pel, pel'[id := Nack(name, now, pel'[id].count + 1)], ids + [id], claimed + {id}, name, minIdle, now)
            else Moved(pel, pel', ids + [id], claimed, name, minIdle, now)
  {
    forall x ensures Times(x, ids + [id], minIdle) ==
                     if minIdle > 0 && x in ids then 1 else Times(x, ids, minIdle) + (if x == id then 1 else 0)
    {
      assert multiset(ids + [id]) == multiset(ids) + multiset{id};
    }
    hide Times;
    if id in claimed && minIdle > 0 { assert !Idle(pel', id, minIdle, now); }
  }

  /** Hand pending entries that have been idle long enough to another consumer. The pending
      set, and so the split into pending and acknowledged, does not change. */
  method Claim(cg: ConsumerGroup, name: Name, minIdle: int, ids: seq<ID>, now: int) returns (claimed: set<ID>)
    requires cg.Valid()
    modifies cg
    ensures cg.Valid() && cg.delivered == old(cg.delivered) && cg.acked == old(cg.acked)
    ensures Moved(old(cg.pel), cg.pel, ids, claimed, name, minIdle, now)
    ensures cg.consumers == if claimed == {} then old(cg.consumers) else Listed(old(cg.consumers), name, claimed, now)
  {
    hide Owed, CursorOk, Listed, Moved;
    claimed := {};
    var k := 0;
    MovedNone(cg.pel, name, minIdle, now);
    while k < |ids|
      invariant 0 <= k <= |ids|
      invariant cg.Valid() && cg.delivered == old(cg.delivered) && cg.acked == old(cg.acked)
      invariant Moved(old(cg.pel), cg.pel, ids[..k], claimed, name, minIdle, now)
      invariant cg.consumers == if claimed == {} then old(cg.consumers) else Listed(old(cg.consumers), name, claimed, now)
    {
      assert ids[..k + 1] == ids[..k] + [ids[k]];
      MovedNext(old(cg.pel), cg.pel, ids[..k], ids[k], claimed, name, minIdle, now);
      if ids[k] in cg.pel && now - cg.pel[ids[k]].time >= minIdle {
        ListedTwice(old(cg.consumers), name, claimed, {ids[k]}, now);
        assert {} + {ids[k]} == {ids[k]};
        cg.AddPending(name, ids[k], now);
        claimed := claimed + {ids[k]};
      }
      k := k + 1;
    }
    assert ids[..k] == ids;
  }

  lemma MovedNone(pel: map<ID, Nack>, name: Name, minIdle: int, now: int)
    ensures Moved(pel, pel, [], {}, name, minIdle, now)
  {
  }
}
