/** Commands with deadlines, and the form in which they are logged and sent to replicas. */
module Propagate {
  import opened Base
  import opened Decimal

  type Key = Bytes

  datatype Value = Text(data: Bytes) | Container

  /** A key's value and the millisecond it expires at; zero means never. */
  datatype Entry = Entry(val: Value, exp: int)

  type Slot = Option<Entry>

  type DB = map<Key, Entry>

  predicate Past(exp: int, now: int) {
    exp != 0 && now >= exp
  }

  predicate Expired(slot: Slot, now: int) {
    slot.Some? && Past(slot.value.exp, now)
  }

  /** A read drops an expired key. */
  function Current(slot: Slot, now: int): Slot {
    if Expired(slot, now) then None else slot
  }

  function At(db: DB, key: Key): Slot {
    if key in db then Some(db[key]) else None
  }

  function Put(db: DB, key: Key, slot: Slot): DB {
    if slot.Some? then db[key := slot.value] else db - {key}
  }

  // ---------------------------------------------------------------------------
  // Options and commands.

  /** Write only if the current value is equal, or is not equal, to the operand. */
  datatype Cond = Cond(equal: bool, operand: Bytes)

  datatype Opt =
    | Ex(n: int) | Px(n: int) | ExAt(n: int) | PxAt(n: int)
    | Nx | Xx | If(cond: Cond) | GetOld | KeepTTL | Drop

  datatype Kind = Seconds | Millis | AtSeconds | AtMillis

  datatype Conds = Conds(nx: bool, xx: bool, gt: bool, lt: bool)

  datatype Cmd =
    | Set(key: Key, val: Bytes, opts: seq<Opt>)
    | SetEx(key: Key, n: int, val: Bytes, millis: bool)
    | GetEx(key: Key, opts: seq<Opt>)
    | GetDel(key: Key)
    | Expire(key: Key, kind: Kind, n: int, conds: Conds)
    | Persist(key: Key)
    | Delete(key: Key)

  datatype Reply = Okay | Null | Bulk(data: Bytes) | Int(n: int) | Err

  datatype Result = Result(slot: Slot, reply: Reply)

  const MAX_EXPIRE_MS: int := 0x4000_0000_0000
  const NS_PER_MS: int := 1_000_000
  const NS_PER_S: int := 1_000_000_000

  predicate ValidSeconds(n: int) { -(MAX_EXPIRE_MS / 1000) <= n <= MAX_EXPIRE_MS / 1000 }

  predicate ValidMillis(n: int) { -MAX_EXPIRE_MS <= n <= MAX_EXPIRE_MS }

  /** A duration in nanoseconds, and seconds as milliseconds, in 64-bit arithmetic. */
  function Ns(n: int, unit: int): int { Wrap64(n * unit) }

  function Ms(n: int): int { Wrap64(n * 1000) }

  /** Division of 64-bit integers rounds toward zero. */
  function Quotient(a: int, b: int): int
    requires b > 0
  {
    if a >= 0 then a / b else -(-a / b)
  }

  // ---------------------------------------------------------------------------
  // SET.

  /** What SET has read from its options. */
  datatype SetOpts = SetOpts(ttl: Option<int>, expAt: int, nx: bool, xx: bool, keep: bool, get: bool, cond: Option<Cond>)

  const NO_OPTS: SetOpts := SetOpts(None, 0, false, false, false, false, None)

  function ReadOpt(s: SetOpts, o: Opt): Option<SetOpts> {
    match o
    case Ex(n) => if n <= 0 || !ValidSeconds(n) then None else Some(s.(ttl := Some(Ns(n, NS_PER_S))))
    case Px(n) => if n <= 0 || !ValidMillis(n) then None else Some(s.(ttl := Some(Ns(n, NS_PER_MS))))
    case ExAt(n) => Some(s.(expAt := Ms(n)))
    case PxAt(n) => Some(s.(expAt := n))
    case Nx => Some(s.(nx := true))
    case Xx => Some(s.(xx := true))
    case If(c) => if s.cond.Some? then None else Some(s.(cond := Some(c)))
    case GetOld => Some(s.(get := true))
    case KeepTTL => Some(s.(keep := true))
    case Drop => None
  }

  function ReadOpts(s: SetOpts, opts: seq<Opt>): Option<SetOpts>
    decreases |opts|
  {
    if opts == [] then Some(s)
    else match ReadOpt(s, opts[0])
      case None => None
      case Some(s') => ReadOpts(s', opts[1..])
  }

  method ReadOptions(opts: seq<Opt>) returns (r: Option<SetOpts>)
    ensures r == ReadOpts(NO_OPTS, opts)
  {
    var s := NO_OPTS;
    var i := 0;
    assert opts[0..] == opts;
    while i < |opts|
      invariant 0 <= i <= |opts| && ReadOpts(NO_OPTS, opts) == ReadOpts(s, opts[i..])
    {
      assert opts[i..][0] == opts[i] && opts[i..][1..] == opts[i + 1..];
      var next := ReadOpt(s, opts[i]);
      if next.None? { return None; }
      s := next.value;
      i := i + 1;
    }
    return Some(s);
  }

  /** Whether the conditions let the write happen, refuse it, or end in an error. */
  datatype Admission = Write | Refused | Unequal | Wrong

  /** NX and XX refuse; a comparison that fails is kept from the replicas; a container cannot be compared. */
  function Admits(s: SetOpts, old_: Slot): Admission {
    if s.get && old_.Some? && old_.value.val.Container? then Wrong
    else if (s.nx && old_.Some?) || (s.xx && old_.None?) then Refused
    else match s.cond
      case None => Write
      case Some(c) =>
        if old_.None? then (if c.equal then Unequal else Write)
        else if old_.value.val.Container? then Wrong
        else if (old_.value.val.data == c.operand) == c.equal then Write else Unequal
  }

  function SetReply(s: SetOpts, old_: Slot): Reply {
    if !s.get then Okay else if old_.Some? && old_.value.val.Text? then Bulk(old_.value.val.data) else Null
  }

  /** The entry SET leaves behind. */
  function Written(s: SetOpts, val: Bytes, old_: Slot, now: int): Entry {
    if s.ttl.Some? then Entry(Text(val), now + s.ttl.value / NS_PER_MS)
    else if s.expAt > 0 then Entry(Text(val), s.expAt)
    else if s.keep && old_.Some? then Entry(Text(val), old_.value.exp)
    else Entry(Text(val), 0)
  }

  /** NX excludes XX, and either excludes a comparison. */
  predicate Clashes(s: SetOpts) {
    (s.nx && s.xx) || (s.cond.Some? && (s.nx || s.xx))
  }

  function DoSet(opts: seq<Opt>, val: Bytes, slot: Slot, now: int): Result {
    match ReadOpts(NO_OPTS, opts)
    case None => Result(slot, Err)
    case Some(s) => if Clashes(s) then Result(slot, Err) else SetWith(s, val, Current(slot, now), now)
  }

  function SetWith(s: SetOpts, val: Bytes, old_: Slot, now: int): Result {
    match Admits(s, old_)
    case Wrong => Result(old_, Err)
    case Write => Result(Some(Written(s, val, old_, now)), SetReply(s, old_))
    case _ => Result(old_, if s.get then SetReply(s, old_) else Null)
  }

  method SetCommand(opts: seq<Opt>, val: Bytes, slot: Slot, now: int) returns (r: Result)
    ensures r == DoSet(opts, val, slot, now)
  {
    var s := ReadOptions(opts);
    if s.None? || Clashes(s.value) { return Result(slot, Err); }
    return SetWith(s.value, val, Current(slot, now), now);
  }

  /** What came of a SET that is not an error. */
  function Outcome(opts: seq<Opt>, slot: Slot, now: int): Admission {
    match ReadOpts(NO_OPTS, opts)
    case None => Wrong
    case Some(s) => if Clashes(s) then Wrong else Admits(s, Current(slot, now))
  }

  // ---------------------------------------------------------------------------
  // The other commands.

  function Unit(millis: bool): int { if millis then NS_PER_MS else NS_PER_S }

  predicate SetExValid(n: int, millis: bool) {
    n > 0 && ValidMillis(Quotient(Ns(n, Unit(millis)), NS_PER_MS))
  }

  function DoSetEx(n: int, millis: bool, val: Bytes, slot: Slot, now: int): Result {
    if SetExValid(n, millis) then Result(Some(Entry(Text(val), now + Ns(n, Unit(millis)) / NS_PER_MS)), Okay)
    else Result(slot, Err)
  }

  function SetExpireAt(slot: Slot, exp: int, now: int): Slot {
    match Current(slot, now)
    case None => None
    case Some(e) => Some(e.(exp := exp))
  }

  function DoPersist(slot: Slot, now: int): Slot {
    if Expired(slot, now) || slot.None? then slot else Some(slot.value.(exp := 0))
  }

  /** What one option of GETEX does: go on, stop there, or refuse the command. */
  datatype Step = Next(slot: Slot) | Last(slot: Slot) | Reject

  predicate GetExTakes(o: Opt): (b: bool)
    ensures b ==> !o.Drop?
  {
    match o
    case Ex(n) => 0 < n && ValidSeconds(n)
    case Px(n) => 0 < n && ValidMillis(n)
    case ExAt(n) => ValidMillis(Ms(n))
    case PxAt(_) => true
    case _ => false
  }

  /** The deadline an expiry option of GETEX sets. */
  function GetExDeadline(o: Opt, now: int): int {
    match o
    case Ex(n) => now + Quotient(Ns(n, NS_PER_S), NS_PER_MS)
    case Px(n) => now + Quotient(Ns(n, NS_PER_MS), NS_PER_MS)
    case ExAt(n) => Ms(n)
    case PxAt(n) => n
    case _ => 0
  }

  function GetExOpt(o: Opt, slot: Slot, now: int): Step {
    if o.Drop? then Last(DoPersist(slot, now))
    else if GetExTakes(o) then Next(SetExpireAt(slot, GetExDeadline(o, now), now))
    else Reject
  }

  /** The options take effect one by one, up to the first that is rejected. */
  function GetExOpts(opts: seq<Opt>, slot: Slot, now: int, reply: Reply): Result
    decreases |opts|
  {
    if opts == [] then Result(slot, reply)
    else match GetExOpt(opts[0], slot, now)
      case Reject => Result(slot, Err)
      case Last(x) => Result(x, reply)
      case Next(x) => GetExOpts(opts[1..], x, now, reply)
  }

  function DoGetEx(opts: seq<Opt>, slot: Slot, now: int): Result {
    match Current(slot, now)
    case None => Result(None, Null)
    case Some(e) => if e.val.Container? then Result(Some(e), Err) else GetExOpts(opts, Some(e), now, Bulk(e.val.data))
  }

  method GetExCommand(opts: seq<Opt>, slot: Slot, now: int) returns (r: Result)
    ensures r == DoGetEx(opts, slot, now)
  {
    hide GetExOpt;
    var x := Current(slot, now);
    if x.None? { return Result(None, Null); }
    if x.value.val.Container? { return Result(x, Err); }
    var out := Bulk(x.value.val.data);
    ghost var all := GetExOpts(opts, x, now, out);
    var i := 0;
    assert opts[0..] == opts;
    while i < |opts|
      invariant 0 <= i <= |opts| && all == GetExOpts(opts[i..], x, now, out)
    {
      assert opts[i..][0] == opts[i] && opts[i..][1..] == opts[i + 1..];
      match GetExOpt(opts[i], x, now) {
        case Reject => return Result(x, Err);
        case Last(y) => return Result(y, out);
        case Next(y) => x := y;
      }
      i := i + 1;
    }
    return Result(x, out);
  }

  function DoGetDel(slot: Slot, now: int): Result {
    match Current(slot, now)
    case None => Result(None, Null)
    case Some(e) => if e.val.Container? then Result(Some(e), Err) else Result(None, Bulk(e.val.data))
  }

  /** The absolute deadline an expiry command asks for, in 64-bit arithmetic. */
  function Target(kind: Kind, n: int, now: int): int {
    match kind
    case Seconds => Wrap64(now + n * 1000)
    case Millis => Wrap64(now + n)
    case AtSeconds => Ms(n)
    case AtMillis => n
  }

  predicate ExpireValid(kind: Kind, n: int, c: Conds) {
    && !(c.gt && c.lt) && !(c.nx && (c.xx || c.gt || c.lt))
    && (kind == Seconds ==> ValidSeconds(n)) && (kind == Millis ==> ValidMillis(n))
  }

  /** The deadline a comparison sees: the time that is left goes through a nanosecond duration in 64 bits. */
  function Seen(exp: int, now: int): int {
    if exp == 0 then 0 else now + Quotient(Ns(exp - now, NS_PER_MS), NS_PER_MS)
  }

  /** A key without a deadline counts as expiring at infinity. */
  predicate Permits(c: Conds, seen: int, target: int) {
    && !(c.nx && seen != 0) && !(c.xx && seen == 0)
    && !(c.gt && (seen == 0 || target <= seen)) && !(c.lt && seen != 0 && target >= seen)
  }

  function DoExpire(kind: Kind, n: int, c: Conds, slot: Slot, now: int): Result {
    if !ExpireValid(kind, n, c) then Result(slot, Err)
    else if Current(slot, now).None? || !Permits(c, Seen(slot.value.exp, now), Target(kind, n, now)) then Result(slot, Int(0))
    else Result(SetExpireAt(slot, Target(kind, n, now), now), Int(1))
  }

  function Apply(cmd: Cmd, slot: Slot, now: int): Result {
    match cmd
    case Set(_, val, opts) => DoSet(opts, val, slot, now)
    case SetEx(_, n, val, millis) => DoSetEx(n, millis, val, slot, now)
    case GetEx(_, opts) => DoGetEx(opts, slot, now)
    case GetDel(_) => DoGetDel(slot, now)
    case Expire(_, kind, n, conds) => DoExpire(kind, n, conds, slot, now)
    case Persist(_) =>
      Result(DoPersist(slot, now), if Current(slot, now).Some? && slot.value.exp != 0 then Int(1) else Int(0))
    case Delete(_) => Result(None, Int(if Current(slot, now).Some? then 1 else 0))
  }

  function Exec(cmd: Cmd, db: DB, now: int): DB {
    Put(db, cmd.key, Apply(cmd, At(db, cmd.key), now).slot)
  }

  // ---------------------------------------------------------------------------
  // The form that is propagated.

  /** The absolute deadline of an expiry option. */
  function Deadline(o: Opt, now: int): Option<int> {
    match o
    case Ex(n) => Some(Wrap64(now + n * 1000))
    case Px(n) => Some(Wrap64(now + n))
    case ExAt(n) => Some(Ms(n))
    case PxAt(n) => Some(n)
    case _ => None
  }

  /** The options a replica needs: deadlines made absolute, conditions dropped. `None` means a deletion. */
  function NormalOpts(opts: seq<Opt>, now: int): Option<seq<Opt>>
    decreases |opts|
  {
    if opts == [] then Some([])
    else
      var d := Deadline(opts[0], now);
      if d.Some? && d.value <= now then None
      else match NormalOpts(opts[1..], now)
        case None => None
        case Some(rest) =>
          if d.Some? then Some([PxAt(d.value)] + rest)
          else if opts[0].KeepTTL? || opts[0].Drop? then Some([opts[0]] + rest)
          else Some(rest)
  }

  method NormalizeOptions(opts: seq<Opt>, now: int) returns (r: Option<seq<Opt>>)
    ensures r == NormalOpts(opts, now)
  {
    var out: seq<Opt> := [];
    var i := 0;
    assert opts[0..] == opts;
    NothingBefore(NormalOpts(opts, now));
    while i < |opts|
      invariant 0 <= i <= |opts| && NormalOpts(opts, now) == After(out, NormalOpts(opts[i..], now))
    {
      assert opts[i..][0] == opts[i] && opts[i..][1..] == opts[i + 1..];
      ghost var before, rest := out, NormalOpts(opts[i + 1..], now);
      var d := Deadline(opts[i], now);
      if d.Some? {
        if d.value <= now { return None; }
        out := out + [PxAt(d.value)];
        if rest.Some? { assert before + ([PxAt(d.value)] + rest.value) == out + rest.value; }
      } else if opts[i].KeepTTL? || opts[i].Drop? {
        out := out + [opts[i]];
        if rest.Some? { assert before + ([opts[i]] + rest.value) == out + rest.value; }
      }
      i := i + 1;
    }
    assert out + [] == out;
    return Some(out);
  }

  function After(out: seq<Opt>, r: Option<seq<Opt>>): Option<seq<Opt>> {
    if r.Some? then Some(out + r.value) else None
  }

  lemma NothingBefore(r: Option<seq<Opt>>)
    ensures After([], r) == r
  {
    if r.Some? { assert [] + r.value == r.value; }
  }

  function ExpireOrDelete(key: Key, target: int, now: int): Cmd {
    if target <= now then Delete(key) else Expire(key, AtMillis, target, Conds(false, false, false, false))
  }

  function SetExDeadline(n: int, millis: bool, now: int): int {
    Wrap64(now + if millis then n else n * 1000)
  }

  function Normalize(cmd: Cmd, now: int, reply: Reply): Option<Cmd> {
    match cmd
    case Expire(key, kind, n, _) => if reply == Int(1) then Some(ExpireOrDelete(key, Target(kind, n, now), now)) else Some(cmd)
    case SetEx(key, n, val, millis) => Some(Set(key, val, [PxAt(SetExDeadline(n, millis, now))]))
    case Set(key, val, opts) =>
      (match NormalOpts(opts, now)
       case None => Some(Delete(key))
       case Some(out) => Some(Set(key, val, out)))
    case GetEx(key, opts) =>
      if opts == [] then None
      else if opts[0].Drop? then Some(Persist(key))
      else (match Deadline(opts[0], now)
            case None => None
            case Some(d) => Some(ExpireOrDelete(key, d, now)))
    case GetDel(key) => if reply == Null then None else Some(Delete(key))
    case _ => Some(cmd)
  }

  /** No option asks for a deadline counted from whenever it is read. */
  predicate OptsAbsolute(opts: seq<Opt>) {
    forall o :: o in opts ==> !o.Ex? && !o.Px?
  }

  /** A form that means the same deadline whenever it is replayed. */
  predicate Absolute(cmd: Cmd) {
    match cmd
    case Set(_, _, opts) => OptsAbsolute(opts)
    case Expire(_, kind, _, _) => kind == AtSeconds || kind == AtMillis
    case SetEx(_, _, _, _) => false
    case GetEx(_, _) => false
    case _ => true
  }

  lemma {:induction false} NormalAbsolute(opts: seq<Opt>, now: int)
    ensures NormalOpts(opts, now).Some? ==> OptsAbsolute(NormalOpts(opts, now).value)
    decreases |opts|
  {
    hide Wrap64, Ms;
    if opts != [] { NormalAbsolute(opts[1..], now); }
  }

  /** What is sent names the same key, and no relative deadline unless an EXPIRE was turned down. */
  method NormalizeCommand(cmd: Cmd, now: int, reply: Reply) returns (form: Option<Cmd>)
    ensures form == Normalize(cmd, now, reply)
    ensures form.Some? ==> form.value.key == cmd.key
    ensures form.Some? && !Absolute(form.value) ==> cmd.Expire? && reply != Int(1) && form == Some(cmd)
  {
    hide NormalOpts, Wrap64, Ms;
    match cmd {
      case Expire(key, kind, n, _) =>
        if reply != Int(1) { return Some(cmd); }
        var at := Target(kind, n, now);
        if at <= now { return Some(Delete(key)); }
        return Some(Expire(key, AtMillis, at, Conds(false, false, false, false)));
      case SetEx(key, n, val, millis) =>
        var at := Wrap64(now + n * 1000);
        if millis { at := Wrap64(now + n); }
        return Some(Set(key, val, [PxAt(at)]));
      case Set(key, val, opts) =>
        var out := NormalizeOptions(opts, now);
        NormalAbsolute(opts, now);
        if out.None? { return Some(Delete(key)); }
        return Some(Set(key, val, out.value));
      case GetEx(key, opts) =>
        if opts == [] { return None; }
        if opts[0].Drop? { return Some(Persist(key)); }
        var at := Deadline(opts[0], now);
        if at.None? { return None; }
        if at.value <= now { return Some(Delete(key)); }
        return Some(Expire(key, AtMillis, at.value, Conds(false, false, false, false)));
      case GetDel(key) =>
        if reply == Null { return None; }
        return Some(Delete(key));
      case Persist(_) => return Some(cmd);
      case Delete(_) => return Some(cmd);
    }
  }

  /** A comparison that failed wrote nothing, and says so itself. */
  predicate Silent(cmd: Cmd, slot: Slot, now: int) {
    cmd.Set? && Outcome(cmd.opts, slot, now) == Unequal
  }

  /** The form in which a command reaches the log and the replicas, if it does. */
  function Form(cmd: Cmd, slot: Slot, now: int): Option<Cmd> {
    var reply := Apply(cmd, slot, now).reply;
    if reply.Err? || Silent(cmd, slot, now) then None else Normalize(cmd, now, reply)
  }

  /** A replica with the same keyspace replays that form at time `t`. */
  function Replay(cmd: Cmd, db: DB, now: int, t: int): DB {
    match Form(cmd, At(db, cmd.key), now)
    case None => db
    case Some(form) => Exec(form, db, t)
  }

  /** The propagated form is about the same key. */
  lemma SameKey(cmd: Cmd, slot: Slot, now: int)
    ensures var form := Form(cmd, slot, now); form.Some? ==> form.value.key == cmd.key
  {
    hide Apply, NormalOpts, Silent;
  }

  /** What the replay makes of the key. */
  function Replayed(cmd: Cmd, slot: Slot, now: int, t: int): Slot {
    match Form(cmd, slot, now)
    case None => slot
    case Some(form) => Apply(form, slot, t).slot
  }

  lemma ReplayIs(cmd: Cmd, db: DB, now: int, t: int)
    ensures Replay(cmd, db, now, t) == Put(db, cmd.key, Replayed(cmd, At(db, cmd.key), now, t))
  {
    hide Apply, Form;
    SameKey(cmd, At(db, cmd.key), now);
    assert db == Put(db, cmd.key, At(db, cmd.key));
  }

  // ---------------------------------------------------------------------------
  // When two keyspaces look alike from some time on.

  ghost function Live(db: DB, u: int): map<Key, Value> {
    map k | k in db && !Past(db[k].exp, u) :: db[k].val
  }

  ghost predicate SameFrom(a: DB, b: DB, t: int) {
    forall u :: u >= t ==> Live(a, u) == Live(b, u)
  }

  lemma LivePut(db: DB, key: Key, slot: Slot, u: int)
    ensures key in Live(Put(db, key, slot), u) <==> Current(slot, u).Some?
    ensures Current(slot, u).Some? ==> Live(Put(db, key, slot), u)[key] == slot.value.val
    ensures Live(Put(db, key, slot), u) - {key} == Live(db, u) - {key}
  {
  }

  /** A moment that tells two unequal slots apart. */
  ghost function Witness(x: Slot, y: Slot, t: int): (u: int)
    ensures u >= t
  {
    if Current(x, t).Some? && Current(y, t).Some? && x.value.exp != y.value.exp then
      var a, b := x.value.exp, y.value.exp;
      if a == 0 then b else if b == 0 then a else if a < b then a else b
    else t
  }

  /** Two keyspaces that differ at one key look alike from `t` on exactly when its slots agree at `t`. */
  lemma SameIffSlots(db: DB, key: Key, x: Slot, y: Slot, t: int)
    ensures SameFrom(Put(db, key, x), Put(db, key, y), t) <==> Current(x, t) == Current(y, t)
  {
    var a, b := Put(db, key, x), Put(db, key, y);
    if Current(x, t) == Current(y, t) {
      forall u | u >= t ensures Live(a, u) == Live(b, u) {
        LivePut(db, key, x, u);
        LivePut(db, key, y, u);
        SameMaps(Live(a, u), Live(b, u), key);
      }
    } else {
      var u := Witness(x, y, t);
      LivePut(db, key, x, u);
      LivePut(db, key, y, u);
      assert Live(a, u) != Live(b, u);
    }
  }

  lemma SameMaps(m: map<Key, Value>, n: map<Key, Value>, key: Key)
    requires m - {key} == n - {key} && (key in m <==> key in n) && (key in m ==> m[key] == n[key])
    ensures m == n
  {
    forall k | k in m || k in n ensures k in m && k in n && m[k] == n[k] {
      if k != key {
        assert k in m - {key} <==> k in m;
        assert k in n - {key} <==> k in n;
        if k in m { assert (m - {key})[k] == m[k]; }
        if k in n { assert (n - {key})[k] == n[k]; }
      }
    }
  }

  // ---------------------------------------------------------------------------
  // The deadlines a SET leaves, here and on the replica.

  /** How long an entry lasts: gone already, or until a deadline, zero meaning for good. */
  type Fate = Option<int>

  predicate Gone(f: Fate, t: int) {
    f.None? || Past(f.value, t)
  }

  /** Two fates that come to the same from time `t` on. */
  predicate Alike(f: Fate, g: Fate, t: int) {
    f == g || (Gone(f, t) && Gone(g, t))
  }

  /** A slot that holds `val` for as long as `f` says. */
  ghost predicate Bears(slot: Slot, val: Value, f: Fate, t: int) {
    if Gone(f, t) then Current(slot, t).None? else slot == Some(Entry(val, f.value))
  }

  lemma SlotsAlike(x: Slot, y: Slot, val: Value, f: Fate, g: Fate, t: int)
    requires Bears(x, val, f, t) && Bears(y, val, g, t)
    ensures Current(x, t) == Current(y, t) <==> Alike(f, g, t)
  {
  }

  predicate IsRelative(o: Opt) { o.Ex? || o.Px? }

  predicate IsAbsolute(o: Opt) { o.ExAt? || o.PxAt? }

  predicate IsExpiry(o: Opt) { IsRelative(o) || IsAbsolute(o) }

  /** The last option of a kind. */
  function LastOf(opts: seq<Opt>, kind: Opt -> bool): (r: Option<Opt>)
    ensures r.Some? ==> kind(r.value) && r.value in opts
    ensures r.None? ==> forall o :: o in opts ==> !kind(o)
  {
    if opts == [] then None
    else
      var later := LastOf(opts[1..], kind);
      if later.Some? then later else if kind(opts[0]) then Some(opts[0]) else None
  }

  /** What the expiry options leave in SET's two variables. */
  function TtlOf(o: Opt): int
    requires IsRelative(o)
  {
    if o.Ex? then Ns(o.n, NS_PER_S) else Ns(o.n, NS_PER_MS)
  }

  function AtOf(o: Opt): int
    requires IsAbsolute(o)
  {
    if o.ExAt? then Ms(o.n) else o.n
  }

  function Kept(opts: seq<Opt>, slot: Slot, now: int): int {
    if KeepTTL in opts && Current(slot, now).Some? then slot.value.exp else 0
  }

  /** The deadline SET leaves here: a relative option beats an absolute one, the last of a kind counts. */
  function HereDeadline(opts: seq<Opt>, slot: Slot, now: int): int {
    var rel, abs := LastOf(opts, IsRelative), LastOf(opts, IsAbsolute);
    if rel.Some? then now + TtlOf(rel.value) / NS_PER_MS
    else if abs.Some? && AtOf(abs.value) > 0 then AtOf(abs.value)
    else Kept(opts, slot, now)
  }

  /** The deadline it leaves on the replica: the last expiry option counts, whatever its kind. */
  function ThereDeadline(opts: seq<Opt>, slot: Slot, now: int, t: int): int {
    var last := LastOf(opts, IsExpiry);
    if last.Some? then Deadline(last.value, now).value else Kept(opts, slot, t)
  }

  /** Whether some deadline had passed when the command ran, so that a deletion is propagated. */
  predicate Deletes(opts: seq<Opt>, now: int) {
    exists o :: o in opts && IsExpiry(o) && Deadline(o, now).value <= now
  }

  lemma ReadOptIs(s: SetOpts, o: Opt)
    requires ReadOpt(s, o).Some?
    ensures var r := ReadOpt(s, o).value;
            && r.keep == (s.keep || o == KeepTTL)
            && r.ttl == (if IsRelative(o) then Some(TtlOf(o)) else s.ttl)
            && r.expAt == (if IsAbsolute(o) then AtOf(o) else s.expAt)
  {
    hide Ns, Ms;
  }

  lemma {:induction false} ReadIs(s: SetOpts, opts: seq<Opt>)
    requires ReadOpts(s, opts).Some?
    ensures var r, rel, abs := ReadOpts(s, opts).value, LastOf(opts, IsRelative), LastOf(opts, IsAbsolute);
            && r.keep == (s.keep || KeepTTL in opts)
            && r.ttl == (if rel.Some? then Some(TtlOf(rel.value)) else s.ttl)
            && r.expAt == (if abs.Some? then AtOf(abs.value) else s.expAt)
    decreases |opts|
  {
    hide ReadOpt, TtlOf, AtOf;
    if opts != [] {
      ReadOptIs(s, opts[0]);
      ReadIs(ReadOpt(s, opts[0]).value, opts[1..]);
      assert opts == [opts[0]] + opts[1..];
    }
  }

  lemma {:induction false} NormalDeletes(opts: seq<Opt>, now: int)
    ensures NormalOpts(opts, now).None? <==> Deletes(opts, now)
    decreases |opts|
  {
    hide Wrap64, Ms;
    if opts != [] {
      NormalDeletes(opts[1..], now);
      assert opts == [opts[0]] + opts[1..];
    }
  }

  lemma {:induction false} NormalIs(s: SetOpts, m: SetOpts, opts: seq<Opt>, now: int)
    requires ReadOpts(s, opts).Some? && NormalOpts(opts, now).Some?
    ensures var last := LastOf(opts, IsExpiry);
            ReadOpts(m, NormalOpts(opts, now).value) == Some(m.(keep := m.keep || KeepTTL in opts,
              expAt := if last.Some? then Deadline(last.value, now).value else m.expAt))
    decreases |opts|
  {
    hide Wrap64, Ns, Ms;
    if opts != [] {
      var o, d := opts[0], Deadline(opts[0], now);
      var m' := if d.Some? then m.(expAt := d.value) else if o.KeepTTL? then m.(keep := true) else m;
      var rest := NormalOpts(opts[1..], now).value;
      NormalIs(ReadOpt(s, o).value, m', opts[1..], now);
      assert opts == [o] + opts[1..];
      ReadFirst(m, if d.Some? then PxAt(d.value) else o, rest);
    }
  }

  lemma ReadFirst(m: SetOpts, o: Opt, rest: seq<Opt>)
    ensures ReadOpts(m, [o] + rest) == match ReadOpt(m, o) { case None => None case Some(m') => ReadOpts(m', rest) }
  {
    hide ReadOpt;
    assert ([o] + rest)[1..] == rest;
  }

  // ---------------------------------------------------------------------------
  // When the replay of each command agrees.

  /** A clock reading that leaves room for every deadline a command may ask for. */
  predicate Clock(now: int) {
    0 < now <= MAX_INT64 - MAX_EXPIRE_MS
  }

  /** What the replica makes of a SET: the rewritten form asks for no conditions. */
  function ThereFate(opts: seq<Opt>, slot: Slot, now: int, t: int): Fate {
    if Deletes(opts, now) then None else Some(ThereDeadline(opts, slot, now, t))
  }

  /**
   * A SET that wrote agrees when the two deadlines come to the same; one that NX or XX refused is
   * replayed all the same, and agrees when the old entry looks like what the replica writes.
   */
  ghost predicate SetAgrees(val: Bytes, opts: seq<Opt>, slot: Slot, now: int, t: int) {
    var there := ThereFate(opts, slot, now, t);
    match Outcome(opts, slot, now)
    case Write => Alike(Some(HereDeadline(opts, slot, now)), there, t)
    case Refused =>
      var old_ := Current(slot, now);
      (old_.Some? && there.Some? && old_.value == Entry(Text(val), there.value)) || (Current(old_, t).None? && Gone(there, t))
    case _ => true
  }

  lemma SetHere(opts: seq<Opt>, val: Bytes, slot: Slot, now: int)
    requires Outcome(opts, slot, now) == Write
    ensures DoSet(opts, val, slot, now).slot == Some(Entry(Text(val), HereDeadline(opts, slot, now)))
    ensures !DoSet(opts, val, slot, now).reply.Err?
  {
    ReadIs(NO_OPTS, opts);
    hide ReadOpts, LastOf, TtlOf, AtOf;
  }

  /** What is sent of a SET that was not an error. */
  lemma SetForm(key: Key, opts: seq<Opt>, val: Bytes, slot: Slot, now: int)
    requires Outcome(opts, slot, now) == Write || Outcome(opts, slot, now) == Refused
    ensures var out := NormalOpts(opts, now);
            Form(Set(key, val, opts), slot, now) == Some(if out.None? then Delete(key) else Set(key, val, out.value))
  {
    hide ReadOpts, NormalOpts, Written;
  }

  /** A SET whose only options are a deadline that has not passed and KEEPTTL. */
  lemma SetPlainly(key: Key, out: seq<Opt>, val: Bytes, slot: Slot, t: int)
    requires ReadOpts(NO_OPTS, out).Some?
    requires var s := ReadOpts(NO_OPTS, out).value; !s.nx && !s.xx && s.cond.None? && !s.get && s.ttl.None? && s.expAt >= 0
    ensures var s := ReadOpts(NO_OPTS, out).value;
            Apply(Set(key, val, out), slot, t).slot == Some(Entry(Text(val),
              if s.expAt > 0 then s.expAt else if s.keep && Current(slot, t).Some? then slot.value.exp else 0))
  {
    hide ReadOpts;
  }

  lemma SetThere(key: Key, opts: seq<Opt>, val: Bytes, slot: Slot, now: int, t: int)
    requires Clock(now) && (Outcome(opts, slot, now) == Write || Outcome(opts, slot, now) == Refused)
    ensures Bears(Replayed(Set(key, val, opts), slot, now, t), Text(val), ThereFate(opts, slot, now, t), t)
  {
    SetForm(key, opts, val, slot, now);
    NormalDeletes(opts, now);
    var out := NormalOpts(opts, now);
    if out.Some? {
      NormalIs(NO_OPTS, NO_OPTS, opts, now);
      var last := LastOf(opts, IsExpiry);
      assert last.Some? ==> Deadline(last.value, now).value > now;
      hide Form, Outcome, ReadOpts, NormalOpts, LastOf, Deadline, Deletes;
      SetPlainly(key, out.value, val, slot, t);
      hide Apply;
    } else {
      hide Form, Outcome, ReadOpts, NormalOpts, LastOf, Deadline, Deletes;
    }
  }

  lemma SetPropagates(key: Key, opts: seq<Opt>, val: Bytes, slot: Slot, now: int, t: int)
    requires Clock(now) && now <= t
    ensures Current(DoSet(opts, val, slot, now).slot, t) == Current(Replayed(Set(key, val, opts), slot, now, t), t) <==>
            SetAgrees(val, opts, slot, now, t)
  {
    var out := Outcome(opts, slot, now);
    if out == Write {
      SetHere(opts, val, slot, now);
      SetThere(key, opts, val, slot, now, t);
      hide DoSet, ThereFate, HereDeadline, Replayed;
      SlotsAlike(DoSet(opts, val, slot, now).slot, Replayed(Set(key, val, opts), slot, now, t), Text(val),
                 Some(HereDeadline(opts, slot, now)), ThereFate(opts, slot, now, t), t);
    } else if out == Refused {
      SetThere(key, opts, val, slot, now, t);
      hide ThereFate, Replayed, ReadOpts;
    } else {
      hide ReadOpts, NormalOpts;
    }
  }

  /** The replica's deadline for SETEX: the sum in 64 bits, none when that is not positive. */
  function SetExThere(n: int, millis: bool, now: int): int {
    var d := SetExDeadline(n, millis, now);
    if d > 0 then d else 0
  }

  lemma SetExPropagates(key: Key, n: int, val: Bytes, millis: bool, slot: Slot, now: int, t: int)
    requires now <= t
    ensures var cmd := SetEx(key, n, val, millis);
            Current(Apply(cmd, slot, now).slot, t) == Current(Replayed(cmd, slot, now, t), t) <==>
            (SetExValid(n, millis) ==> Alike(Some(now + Ns(n, Unit(millis)) / NS_PER_MS), Some(SetExThere(n, millis, now)), t))
  {
    ReadOne(NO_OPTS, PxAt(SetExDeadline(n, millis, now)));
    hide ReadOpts, SetExValid, Ns, SetExDeadline;
  }

  lemma ReadOne(s: SetOpts, o: Opt)
    ensures ReadOpts(s, [o]) == ReadOpt(s, o)
  {
    hide ReadOpt;
    var x := ReadOpt(s, o);
    if x.Some? { assert [o][1..] == [] && ReadOpts(x.value, []) == x; }
  }

  /** The options of GETEX that take effect before one that drops the deadline or is rejected. */
  function TakenCount(opts: seq<Opt>): (n: nat)
    ensures n <= |opts| && (forall i :: 0 <= i < n ==> GetExTakes(opts[i])) && (n < |opts| ==> !GetExTakes(opts[n]))
  {
    if opts != [] && GetExTakes(opts[0]) then 1 + TakenCount(opts[1..]) else 0
  }

  predicate Rejects(opts: seq<Opt>) {
    var n := TakenCount(opts); n < |opts| && !opts[n].Drop?
  }

  /** The last deadline counts, but one that has already passed ends the key. */
  function GetExHere(opts: seq<Opt>, exp: int, now: int): Fate {
    var n := TakenCount(opts);
    if exists i :: 0 <= i < n && Past(GetExDeadline(opts[i], now), now) then None
    else if n < |opts| && opts[n].Drop? then Some(0)
    else if n == 0 then Some(exp)
    else Some(GetExDeadline(opts[n - 1], now))
  }

  /** Only the first option is propagated, and nothing at all when one is rejected. */
  function GetExThere(opts: seq<Opt>, exp: int, now: int, t: int): Fate {
    if opts == [] || Rejects(opts) then Some(exp)
    else if Past(exp, t) then None
    else if opts[0].Drop? then Some(0)
    else if Deadline(opts[0], now).value <= now then None
    else Deadline(opts[0], now)
  }

  /** Nothing after a deadline that has passed brings the key back. */
  lemma {:induction false} GetExDead(opts: seq<Opt>, slot: Slot, now: int, reply: Reply, t: int)
    requires Current(slot, now).None? && now <= t && !reply.Err?
    ensures var r := GetExOpts(opts, slot, now, reply);
            Current(r.slot, t).None? && (r.reply.Err? <==> Rejects(opts))
    decreases |opts|
  {
    hide GetExTakes, GetExDeadline;
    if opts != [] && GetExTakes(opts[0]) {
      GetExDead(opts[1..], SetExpireAt(slot, GetExDeadline(opts[0], now), now), now, reply, t);
    }
  }

  lemma {:induction false} GetExIs(opts: seq<Opt>, e: Entry, now: int, reply: Reply, t: int)
    requires !Past(e.exp, now) && now <= t && !reply.Err?
    ensures var r := GetExOpts(opts, Some(e), now, reply);
            Bears(r.slot, e.val, GetExHere(opts, e.exp, now), t) && (r.reply.Err? <==> Rejects(opts))
    decreases |opts|
  {
    hide GetExTakes, GetExDeadline;
    if opts != [] && GetExTakes(opts[0]) {
      var d, rest := GetExDeadline(opts[0], now), opts[1..];
      if Past(d, now) {
        assert 0 < TakenCount(opts) && Past(GetExDeadline(opts[0], now), now);
        GetExDead(rest, Some(e.(exp := d)), now, reply, t);
      } else {
        GetExIs(rest, e.(exp := d), now, reply, t);
        GetExHereStep(opts, e.exp, now);
      }
    }
  }

  lemma GetExHereStep(opts: seq<Opt>, exp: int, now: int)
    requires opts != [] && GetExTakes(opts[0]) && !Past(GetExDeadline(opts[0], now), now)
    ensures GetExHere(opts, exp, now) == GetExHere(opts[1..], GetExDeadline(opts[0], now), now)
    ensures Rejects(opts) == Rejects(opts[1..])
  {
    hide GetExTakes, GetExDeadline;
    var n, rest := TakenCount(opts), opts[1..];
    assert TakenCount(rest) == n - 1;
    if i :| 0 <= i < n && Past(GetExDeadline(opts[i], now), now) {
      assert rest[i - 1] == opts[i];
    }
  }

  lemma GetExPropagates(key: Key, opts: seq<Opt>, slot: Slot, now: int, t: int)
    requires Clock(now) && now <= t
    ensures var cmd := GetEx(key, opts);
            Current(Apply(cmd, slot, now).slot, t) == Current(Replayed(cmd, slot, now, t), t) <==>
            GetExAgrees(opts, slot, now, t)
  {
    var cmd, old_ := GetEx(key, opts), Current(slot, now);
    if old_.Some? && old_.value.val.Text? {
      var e := old_.value;
      GetExIs(opts, e, now, Bulk(e.val.data), t);
      FirstOption(opts, now);
      hide GetExOpts, GetExHere, Rejects, Deadline;
      SlotsAlike(Apply(cmd, slot, now).slot, Replayed(cmd, slot, now, t), e.val,
                 GetExHere(opts, e.exp, now), GetExThere(opts, e.exp, now, t), t);
    } else {
      hide GetExOpts, Deadline;
    }
  }

  /** Where the key holds a text, the deadline here and the one the first option asks for come to the same. */
  ghost predicate GetExAgrees(opts: seq<Opt>, slot: Slot, now: int, t: int) {
    Current(slot, now).Some? && slot.value.val.Text? ==>
      Alike(GetExHere(opts, slot.value.exp, now), GetExThere(opts, slot.value.exp, now, t), t)
  }

  lemma FirstOption(opts: seq<Opt>, now: int)
    ensures opts != [] && !Rejects(opts) ==> opts[0].Drop? || Deadline(opts[0], now).Some?
  {
  }

  lemma GetDelPropagates(key: Key, slot: Slot, now: int, t: int)
    requires now <= t
    ensures Current(Apply(GetDel(key), slot, now).slot, t) == Current(Replayed(GetDel(key), slot, now, t), t)
  {
  }

  /**
   * An EXPIRE that took effect agrees unless it asked for zero, or came to a key that had run out
   * before the replay and would be there by its new deadline. One that was turned down is sent on as
   * it is, and agrees unless the key is still there at the replay, is then given the deadline it was
   * refused, and that is not the one it has.
   */
  ghost predicate ExpireAgrees(kind: Kind, n: int, c: Conds, slot: Slot, now: int, t: int) {
    ExpireValid(kind, n, c) && Current(slot, now).Some? ==>
      var exp, target, later := slot.value.exp, Target(kind, n, now), Target(kind, n, t);
      if Permits(c, Seen(exp, now), target) then target != 0 && (!Past(exp, t) || target <= t)
      else Past(exp, t) || !Permits(c, Seen(exp, t), later) || later == exp
  }

  lemma ExpirePropagates(key: Key, kind: Kind, n: int, conds: Conds, slot: Slot, now: int, t: int)
    requires Clock(now) && Clock(t) && now <= t
    ensures var cmd := Expire(key, kind, n, conds);
            Current(Apply(cmd, slot, now).slot, t) == Current(Replayed(cmd, slot, now, t), t) <==>
            ExpireAgrees(kind, n, conds, slot, now, t)
  {
    if ExpireValid(kind, n, conds) { TargetGrows(kind, n, now, t); }
    SentOn(key, Target(kind, n, now), slot, now, t);
    hide Target, ExpireValid, Seen, Permits, ExpireOrDelete;
  }

  /** The absolute form takes effect wherever the key still is. */
  lemma SentOn(key: Key, target: int, slot: Slot, now: int, t: int)
    ensures Apply(ExpireOrDelete(key, target, now), slot, t).slot ==
            if target <= now then None else if Current(slot, t).None? then slot else Some(slot.value.(exp := target))
  {
    hide Seen;
  }

  lemma TargetGrows(kind: Kind, n: int, now: int, t: int)
    requires Clock(now) && Clock(t) && now <= t && (kind == Seconds ==> ValidSeconds(n)) && (kind == Millis ==> ValidMillis(n))
    ensures Target(kind, n, now) <= Target(kind, n, t)
    ensures kind == AtSeconds || kind == AtMillis ==> Target(kind, n, now) == Target(kind, n, t)
    ensures Target(AtMillis, n, t) == n
  {
  }

  // ---------------------------------------------------------------------------
  // All of them together.

  /** Whether the replay at time `t` agrees, by the numbers in the command, the old entry and the clock. */
  ghost predicate Agrees(cmd: Cmd, slot: Slot, now: int, t: int) {
    match cmd
    case Set(_, val, opts) => SetAgrees(val, opts, slot, now, t)
    case SetEx(_, n, _, millis) =>
      SetExValid(n, millis) ==> Alike(Some(now + Ns(n, Unit(millis)) / NS_PER_MS), Some(SetExThere(n, millis, now)), t)
    case GetEx(_, opts) => GetExAgrees(opts, slot, now, t)
    case Expire(_, kind, n, conds) => ExpireAgrees(kind, n, conds, slot, now, t)
    case Persist(_) => !Expired(slot, t) || Expired(slot, now)
    case GetDel(_) => true
    case Delete(_) => true
  }

  lemma SlotPropagates(cmd: Cmd, slot: Slot, now: int, t: int)
    requires Clock(now) && Clock(t) && now <= t
    ensures Current(Apply(cmd, slot, now).slot, t) == Current(Replayed(cmd, slot, now, t), t) <==> Agrees(cmd, slot, now, t)
  {
    match cmd
    case Set(key, val, opts) =>
      SetPropagates(key, opts, val, slot, now, t);
      hide Replayed, DoSet, SetAgrees;
    case SetEx(key, n, val, millis) =>
      SetExPropagates(key, n, val, millis, slot, now, t);
      hide Replayed, DoSetEx, Alike;
    case GetEx(key, opts) =>
      GetExPropagates(key, opts, slot, now, t);
      hide Replayed, DoGetEx, GetExAgrees;
    case GetDel(key) => GetDelPropagates(key, slot, now, t);
    case Expire(key, kind, n, conds) =>
      ExpirePropagates(key, kind, n, conds, slot, now, t);
      hide Replayed, DoExpire, ExpireAgrees;
    case Persist(_) =>
    case Delete(_) =>
  }

  /**
   * For every command, whatever its options, numbers and outcome: replaying what is propagated at a
   * later time `t` gives, from then on, the keyspace the command itself gave, if and only if it agrees.
   */
  lemma Propagates(cmd: Cmd, db: DB, now: int, t: int)
    requires Clock(now) && Clock(t) && now <= t
    ensures SameFrom(Exec(cmd, db, now), Replay(cmd, db, now, t), t) <==> Agrees(cmd, At(db, cmd.key), now, t)
  {
    hide Apply, Replayed, Replay, Agrees;
    var slot := At(db, cmd.key);
    SlotPropagates(cmd, slot, now, t);
    ReplayIs(cmd, db, now, t);
    SameIffSlots(db, cmd.key, Apply(cmd, slot, now).slot, Replayed(cmd, slot, now, t), t);
  }

  // ---------------------------------------------------------------------------
  // What that says of common and of odd commands.

  /** A relative expiry whose nanoseconds fit 64 bits. */
  predicate Fits(o: Opt) {
    (o.Ex? ==> o.n * NS_PER_S <= MAX_INT64) && (o.Px? ==> o.n * NS_PER_MS <= MAX_INT64)
  }

  predicate RelativeValid(o: Opt) {
    (o.Ex? ==> 0 < o.n && ValidSeconds(o.n)) && (o.Px? ==> 0 < o.n && ValidMillis(o.n))
  }

  /** A relative expiry that SET accepts is positive and bounded. */
  lemma {:induction false} ReadRange(s: SetOpts, opts: seq<Opt>)
    requires ReadOpts(s, opts).Some?
    ensures forall o :: o in opts ==> RelativeValid(o)
    decreases |opts|
  {
    hide Ns, Ms, ValidSeconds, ValidMillis;
    if opts != [] {
      ReadRange(ReadOpt(s, opts[0]).value, opts[1..]);
      assert opts == [opts[0]] + opts[1..];
    }
  }

  /** The deadline in nanoseconds is the one in milliseconds if and only if the nanoseconds fit. */
  lemma RelativeExactIff(o: Opt, now: int)
    requires IsRelative(o) && RelativeValid(o) && Clock(now)
    ensures var d := now + if o.Ex? then o.n * 1000 else o.n;
            && Deadline(o, now) == Some(d) && d > now
            && now + TtlOf(o) / NS_PER_MS <= d
            && (now + TtlOf(o) / NS_PER_MS == d <==> Fits(o))
  {
    var x := o.n * if o.Ex? then NS_PER_S else NS_PER_MS;
    if !Fits(o) { assert x > MAX_INT64 >= Wrap64(x); }
  }

  /** At most one option sets a deadline, one the program keeps exactly. */
  ghost predicate Plain(opts: seq<Opt>, now: int) {
    && (forall i, j :: 0 <= i < |opts| && 0 <= j < |opts| && IsExpiry(opts[i]) && IsExpiry(opts[j]) ==> i == j)
    && (forall o :: o in opts && IsExpiry(o) ==> Fits(o) && Deadline(o, now).value > 0)
  }

  /** A plain SET that wrote agrees unless KEEPTTL alone meets a key that has run out in between. */
  lemma PlainSetPropagates(val: Bytes, opts: seq<Opt>, slot: Slot, now: int, t: int)
    requires Clock(now) && now <= t && Outcome(opts, slot, now) == Write && Plain(opts, now)
    ensures SetAgrees(val, opts, slot, now, t) <==>
            LastOf(opts, IsExpiry).Some? || KeepTTL !in opts || !Expired(slot, t) || Expired(slot, now)
  {
    ReadRange(NO_OPTS, opts);
    var last, rel, abs := LastOf(opts, IsExpiry), LastOf(opts, IsRelative), LastOf(opts, IsAbsolute);
    if last.Some? {
      OnlyOne(opts, now, last.value);
      if rel.Some? { RelativeExactIff(rel.value, now); }
    }
    hide Outcome, LastOf, Fits, RelativeValid;
  }

  lemma OnlyOne(opts: seq<Opt>, now: int, o: Opt)
    requires Plain(opts, now) && o in opts && IsExpiry(o)
    ensures forall p :: p in opts && IsExpiry(p) ==> p == o
    ensures LastOf(opts, IsRelative) == (if IsRelative(o) then Some(o) else None)
    ensures LastOf(opts, IsAbsolute) == (if IsAbsolute(o) then Some(o) else None)
  {
    hide LastOf, Fits, Deadline;
    var i :| 0 <= i < |opts| && opts[i] == o;
    forall p | p in opts && IsExpiry(p) ensures p == o {
      var j :| 0 <= j < |opts| && opts[j] == p;
    }
  }

  lemma SingleSet(o: Opt, val: Bytes, slot: Slot, now: int)
    requires IsExpiry(o) && RelativeValid(o)
    ensures Outcome([o], slot, now) == Write
    ensures LastOf([o], IsExpiry) == Some(o) && KeepTTL !in [o]
    ensures LastOf([o], IsRelative) == (if IsRelative(o) then Some(o) else None)
    ensures LastOf([o], IsAbsolute) == (if IsAbsolute(o) then Some(o) else None)
  {
    hide Ns, Ms, ValidSeconds, ValidMillis;
    ReadOne(NO_OPTS, o);
    assert o in [o];
  }

  /** SET with one absolute deadline agrees if and only if it is positive. */
  lemma AbsoluteSetIff(db: DB, key: Key, val: Bytes, d: int, now: int, t: int)
    requires Clock(now) && Clock(t) && now <= t
    ensures var cmd := Set(key, val, [PxAt(d)]);
            SameFrom(Exec(cmd, db, now), Replay(cmd, db, now, t), t) <==> d > 0
  {
    var slot := At(db, key);
    SingleSet(PxAt(d), val, slot, now);
    Propagates(Set(key, val, [PxAt(d)]), db, now, t);
    assert PxAt(d) in [PxAt(d)];
    hide SameFrom, LastOf, Outcome, Replay, Exec;
  }

  /**
   * SET with one relative expiry agrees if its nanoseconds fit 64 bits; if they do not, it agrees if
   * and only if both the deadline it ends up with here, unless that is none, and the right one are past.
   */
  lemma RelativeSetIff(db: DB, key: Key, val: Bytes, o: Opt, now: int, t: int)
    requires Clock(now) && Clock(t) && now <= t && IsRelative(o) && RelativeValid(o)
    ensures var cmd := Set(key, val, [o]);
            SameFrom(Exec(cmd, db, now), Replay(cmd, db, now, t), t) <==>
            Fits(o) || (now + TtlOf(o) / NS_PER_MS != 0 && now + (if o.Ex? then o.n * 1000 else o.n) <= t)
  {
    var slot := At(db, key);
    SingleSet(o, val, slot, now);
    RelativeExactIff(o, now);
    Propagates(Set(key, val, [o]), db, now, t);
    hide SameFrom, LastOf, Outcome, Replay, Exec, TtlOf, Fits, RelativeValid;
  }

  /** 293 years do not fit: the key expires at once here and not on the replica. */
  lemma LongExpiryDiverges(db: DB, key: Key, val: Bytes, now: int)
    requires Clock(now)
    ensures var cmd := Set(key, val, [Ex(9_223_372_037)]);
            !SameFrom(Exec(cmd, db, now), Replay(cmd, db, now, now), now)
  {
    RelativeSetIff(db, key, val, Ex(9_223_372_037), now, now);
    hide SameFrom, Replay, Exec;
  }

  /** SETEX and PSETEX always agree while their nanoseconds fit. */
  lemma SetExExact(key: Key, n: int, val: Bytes, millis: bool, slot: Slot, now: int, t: int)
    requires Clock(now) && n * Unit(millis) <= MAX_INT64
    ensures Agrees(SetEx(key, n, val, millis), slot, now, t)
  {
    if SetExValid(n, millis) {
      assert Ns(n, Unit(millis)) == n * Unit(millis);
    }
  }

  /** Of two expiry options SET here obeys the relative one, on the replica the later one. */
  lemma TwoExpiriesDiverge(db: DB, key: Key, val: Bytes, now: int)
    requires Clock(now)
    ensures var cmd := Set(key, val, [Px(1000), PxAt(now + 5000)]);
            !SameFrom(Exec(cmd, db, now), Replay(cmd, db, now, now), now)
  {
    var o, p := Px(1000), PxAt(now + 5000);
    var opts := [o, p];
    RelativeExactIff(o, now);
    assert opts[1..] == [p] && [p][1..] == [];
    ReadOne(ReadOpt(NO_OPTS, o).value, p);
    assert LastOf([p], IsExpiry) == Some(p) && LastOf([p], IsRelative) == None;
    Propagates(Set(key, val, opts), db, now, now);
    assert !Deletes(opts, now);
    hide SameFrom, Replay, Exec, Wrap64, Ns;
  }

  /** Most milliseconds a duration holds, about 292 years. */
  const MAX_TTL_MS: int := 9_223_372_036_854

  /** Of a live key the comparison sees the deadline itself if and only if it is not too far off. */
  lemma SeenIff(exp: int, now: int)
    requires !Past(exp, now)
    ensures Seen(exp, now) == exp <==> exp == 0 || exp - now <= MAX_TTL_MS
  {
    if exp != 0 && exp - now > MAX_TTL_MS {
      assert (exp - now) * NS_PER_MS > MAX_INT64 >= Ns(exp - now, NS_PER_MS);
    }
  }

  /** A refused EXPIRE on a deadline seen right agrees unless GT then finds a relative deadline larger. */
  lemma NearExpirePropagates(kind: Kind, n: int, c: Conds, e: Entry, now: int, t: int)
    requires Clock(now) && Clock(t) && now <= t && ExpireValid(kind, n, c)
    requires !Past(e.exp, now) && (e.exp == 0 || e.exp - now <= MAX_TTL_MS)
    ensures ExpireAgrees(kind, n, c, Some(e), now, t) <==>
            var exp, target := e.exp, Target(kind, n, now);
            if Permits(c, exp, target) then target != 0 && (!Past(exp, t) || target <= t)
            else !(c.gt && exp != 0 && !Past(exp, t) && (kind == Seconds || kind == Millis) && Target(kind, n, t) > exp)
  {
    SeenIff(e.exp, now);
    if !Past(e.exp, t) { SeenIff(e.exp, t); }
    TargetGrows(kind, n, now, t);
    hide Seen, Target;
  }

  /** An EXPIRE that LT turned down, since the deadline was too far off to be seen right, and that is taken later. */
  lemma FarDeadlineDiverges(key: Key, val: Value)
    ensures var now := 1_700_000_000_000;
            var cmd, db := Expire(key, Millis, 1000, Conds(false, false, false, true)), map[key := Entry(val, now + MAX_TTL_MS + 1)];
            Clock(now) && Clock(now + 1) && !SameFrom(Exec(cmd, db, now), Replay(cmd, db, now, now + 1), now + 1)
  {
    var now := 1_700_000_000_000;
    var cmd, db := Expire(key, Millis, 1000, Conds(false, false, false, true)), map[key := Entry(val, now + MAX_TTL_MS + 1)];
    Propagates(cmd, db, now, now + 1);
    SeenIff(now + MAX_TTL_MS + 1, now + 1);
    hide SameFrom, Replay, Exec;
  }

  /** An EXPIRE that GT turned down and that is taken when it is replayed. */
  lemma RefusedExpireDiverges(key: Key, val: Value, now: int)
    requires Clock(now) && Clock(now + 600)
    ensures var cmd, db := Expire(key, Millis, 1000, Conds(false, false, true, false)), map[key := Entry(val, now + 1500)];
            !SameFrom(Exec(cmd, db, now), Replay(cmd, db, now, now + 600), now + 600)
  {
    var cmd, db := Expire(key, Millis, 1000, Conds(false, false, true, false)), map[key := Entry(val, now + 1500)];
    Propagates(cmd, db, now, now + 600);
    hide SameFrom, Replay, Exec;
  }

  /** A SET that NX turned down is propagated without the condition. */
  lemma RefusedSetDiverges(key: Key, old_: Bytes, val: Bytes, now: int)
    requires Clock(now) && old_ != val
    ensures var cmd, db := Set(key, val, [Nx]), map[key := Entry(Text(old_), 0)];
            !SameFrom(Exec(cmd, db, now), Replay(cmd, db, now, now), now)
  {
    var cmd, db := Set(key, val, [Nx]), map[key := Entry(Text(old_), 0)];
    assert [Nx][1..] == [] && Outcome([Nx], At(db, key), now) == Refused;
    Propagates(cmd, db, now, now);
    assert !Deletes([Nx], now);
    hide SameFrom, Replay, Exec;
  }

  // ---------------------------------------------------------------------------
  // What the commands do, said by the words of the command.

  /** The options SET accepts: each valid, NX without XX, and at most one comparison and then neither. */
  ghost predicate Acceptable(opts: seq<Opt>) {
    Valid(opts) && OneIf(opts) && !(Nx in opts && Xx in opts) && (NoIf(opts) || (Nx !in opts && Xx !in opts))
  }

  /** What reading the options leaves of the conditions. */
  lemma {:induction false} ReadFlags(s: SetOpts, opts: seq<Opt>)
    requires ReadOpts(s, opts).Some?
    ensures var r := ReadOpts(s, opts).value;
            && r.nx == (s.nx || Nx in opts) && r.xx == (s.xx || Xx in opts) && r.get == (s.get || GetOld in opts)
    decreases |opts|
  {
    hide Ns, Ms, ValidSeconds, ValidMillis;
    if opts != [] {
      ReadFlags(ReadOpt(s, opts[0]).value, opts[1..]);
      assert opts == [opts[0]] + opts[1..];
    }
  }

  ghost predicate Valid(opts: seq<Opt>) {
    forall o :: o in opts ==> !o.Drop? && RelativeValid(o)
  }

  ghost predicate NoIf(opts: seq<Opt>) {
    forall o :: o in opts ==> !o.If?
  }

  ghost predicate OneIf(opts: seq<Opt>) {
    forall i, j :: 0 <= i < j < |opts| ==> !(opts[i].If? && opts[j].If?)
  }

  lemma OneIfCons(opts: seq<Opt>)
    requires opts != []
    ensures OneIf(opts) <==> OneIf(opts[1..]) && (opts[0].If? ==> NoIf(opts[1..]))
  {
    var rest := opts[1..];
    if OneIf(opts) {
      forall i, j | 0 <= i < j < |rest| ensures !(rest[i].If? && rest[j].If?) {
        assert rest[i] == opts[i + 1] && rest[j] == opts[j + 1];
      }
      if opts[0].If? {
        forall x | x in rest ensures !x.If? {
          var j :| 0 <= j < |rest| && rest[j] == x;
          assert opts[j + 1] == x;
        }
      }
    } else {
      var i, j :| 0 <= i < j < |opts| && opts[i].If? && opts[j].If?;
      assert rest[j - 1] == opts[j] && opts[j] in rest;
      if i > 0 { assert rest[i - 1] == opts[i]; }
    }
  }

  lemma ValidCons(opts: seq<Opt>)
    requires opts != []
    ensures Valid(opts) <==> !opts[0].Drop? && RelativeValid(opts[0]) && Valid(opts[1..])
    ensures NoIf(opts) <==> !opts[0].If? && NoIf(opts[1..])
  {
    hide RelativeValid;
    assert opts == [opts[0]] + opts[1..];
  }

  lemma ReadOptIff(s: SetOpts, o: Opt)
    ensures ReadOpt(s, o).Some? <==> !o.Drop? && RelativeValid(o) && !(o.If? && s.cond.Some?)
    ensures ReadOpt(s, o).Some? ==> (ReadOpt(s, o).value.cond.Some? <==> s.cond.Some? || o.If?)
  {
    hide Ns, Ms, ValidSeconds, ValidMillis;
  }

  lemma {:induction false} ReadableIff(s: SetOpts, opts: seq<Opt>)
    ensures ReadOpts(s, opts).Some? <==> Valid(opts) && OneIf(opts) && (s.cond.Some? ==> NoIf(opts))
    decreases |opts|
  {
    if opts != [] {
      OneIfCons(opts);
      ValidCons(opts);
      hide Valid, OneIf, NoIf, RelativeValid, ReadOpt;
      ReadOptIff(s, opts[0]);
      if ReadOpt(s, opts[0]).Some? { ReadableIff(ReadOpt(s, opts[0]).value, opts[1..]); }
    }
  }

  lemma {:induction false} ReadCond(s: SetOpts, opts: seq<Opt>)
    requires ReadOpts(s, opts).Some?
    ensures var r := ReadOpts(s, opts).value;
            && (r.cond.Some? <==> s.cond.Some? || !NoIf(opts))
            && (forall o :: o in opts && o.If? ==> r.cond == Some(o.cond)) && (s.cond.Some? ==> r.cond == s.cond)
    decreases |opts|
  {
    hide Ns, Ms, ValidSeconds, ValidMillis;
    if opts != [] {
      ReadCond(ReadOpt(s, opts[0]).value, opts[1..]);
      assert opts == [opts[0]] + opts[1..];
      if opts[0].If? { assert opts[0] in opts; }
    }
  }

  lemma AcceptableIff(opts: seq<Opt>)
    ensures Acceptable(opts) <==> ReadOpts(NO_OPTS, opts).Some? && !Clashes(ReadOpts(NO_OPTS, opts).value)
  {
    ReadableIff(NO_OPTS, opts);
    if ReadOpts(NO_OPTS, opts).Some? {
      ReadFlags(NO_OPTS, opts);
      ReadCond(NO_OPTS, opts);
    }
    hide RelativeValid, ReadOpts;
  }

  /** The text a live key holds. */
  function TextAt(slot: Slot, now: int): Option<Bytes> {
    if Current(slot, now).Some? && slot.value.val.Text? then Some(slot.value.val.data) else None
  }

  ghost predicate HoldsContainer(slot: Slot, now: int) {
    Current(slot, now).Some? && slot.value.val.Container?
  }

  /** The key now holds the value, under the deadline the options ask for. */
  ghost predicate Stored(r: Result, val: Bytes, opts: seq<Opt>, slot: Slot, now: int) {
    && r.slot == Some(Entry(Text(val), HereDeadline(opts, slot, now)))
    && r.reply == if GetOld in opts then OldText(slot, now) else Okay
  }

  /** The key is as it was. */
  ghost predicate Untouched(r: Result, opts: seq<Opt>, slot: Slot, now: int) {
    r.slot == Current(slot, now) && r.reply == if GetOld in opts then OldText(slot, now) else Null
  }

  /** The old text, or nothing. */
  function OldText(slot: Slot, now: int): Reply {
    if TextAt(slot, now).Some? then Bulk(TextAt(slot, now).value) else Null
  }

  /** SET in so many words: what it refuses, when each condition lets the write happen, and what it answers. */
  lemma SetMeans(opts: seq<Opt>, val: Bytes, slot: Slot, now: int)
    ensures var r := DoSet(opts, val, slot, now);
            r.reply.Err? <==>
            !Acceptable(opts) || (HoldsContainer(slot, now) && (GetOld in opts || !NoIf(opts)))
    ensures var r, live := DoSet(opts, val, slot, now), Current(slot, now);
            !r.reply.Err? ==>
              && (Xx in opts ==> if live.Some? then Stored(r, val, opts, slot, now) else Untouched(r, opts, slot, now))
              && (Nx in opts ==> if live.None? then Stored(r, val, opts, slot, now) else Untouched(r, opts, slot, now))
    ensures var r, text := DoSet(opts, val, slot, now), TextAt(slot, now);
            !r.reply.Err? ==> forall x ::
              && (If(Cond(true, x)) in opts ==> if text == Some(x) then Stored(r, val, opts, slot, now) else Untouched(r, opts, slot, now))
              && (If(Cond(false, x)) in opts ==> if text != Some(x) then Stored(r, val, opts, slot, now) else Untouched(r, opts, slot, now))
    ensures var r := DoSet(opts, val, slot, now);
            !r.reply.Err? && Nx !in opts && Xx !in opts && NoIf(opts) ==> Stored(r, val, opts, slot, now)
    ensures var r := DoSet(opts, val, slot, now); r.reply.Err? ==> r.slot == slot || r.slot == Current(slot, now)
  {
    AcceptableIff(opts);
    if Acceptable(opts) {
      ReadFlags(NO_OPTS, opts);
      ReadCond(NO_OPTS, opts);
      if Outcome(opts, slot, now) == Write { SetHere(opts, val, slot, now); }
    }
    hide ReadOpts, Acceptable, HereDeadline;
  }

  /** EXPIRE in so many words, on a live key whose deadline is seen right. */
  lemma ExpireMeans(kind: Kind, n: int, c: Conds, e: Entry, now: int)
    requires Clock(now) && ExpireValid(kind, n, c) && !Past(e.exp, now) && (e.exp == 0 || e.exp - now <= MAX_TTL_MS)
    ensures kind == Seconds ==> Target(kind, n, now) == now + 1000 * n
    ensures kind == Millis ==> Target(kind, n, now) == now + n
    ensures kind == AtSeconds && MIN_INT64 <= 1000 * n <= MAX_INT64 ==> Target(kind, n, now) == 1000 * n
    ensures kind == AtMillis ==> Target(kind, n, now) == n
    ensures var target := Target(kind, n, now);
            var taken := (c.nx ==> e.exp == 0) && (c.xx ==> e.exp != 0)
                         && (c.gt ==> e.exp != 0 && target > e.exp) && (c.lt ==> e.exp == 0 || target < e.exp);
            DoExpire(kind, n, c, Some(e), now) == if taken then Result(Some(Entry(e.val, target)), Int(1)) else Result(Some(e), Int(0))
  {
    SeenIff(e.exp, now);
    hide Seen;
  }

  /** On a key that is not there EXPIRE changes nothing and answers 0. */
  lemma ExpireMissing(kind: Kind, n: int, c: Conds, slot: Slot, now: int)
    requires ExpireValid(kind, n, c) && Current(slot, now).None?
    ensures DoExpire(kind, n, c, slot, now) == Result(slot, Int(0))
  {
  }

  /** The quotient leaves a remainder smaller than the divisor and of the dividend's sign. */
  lemma QuotientTruncates(a: int, b: int)
    requires b > 0
    ensures var r := a - Quotient(a, b) * b; -b < r < b && (a >= 0 ==> r >= 0) && (a <= 0 ==> r <= 0)
  {
    if a < 0 { assert -a == (-a / b) * b + (-a) % b; }
  }

  /** Relative expiries reach 2^46 milliseconds, in whole seconds when they are given in seconds. */
  lemma LargestExpiry(n: int)
    ensures ValidMillis(n) <==> -70_368_744_177_664 <= n <= 70_368_744_177_664
    ensures ValidSeconds(n) <==> -70_368_744_177 <= n <= 70_368_744_177
  {
  }

  /** EXPIRE is an error for numbers out of range, GT with LT, and NX with any other condition. */
  lemma ExpireErrs(kind: Kind, n: int, c: Conds, slot: Slot, now: int)
    ensures DoExpire(kind, n, c, slot, now).reply.Err? <==>
            || (kind == Seconds && (n > 70_368_744_177 || n < -70_368_744_177))
            || (kind == Millis && (n > 70_368_744_177_664 || n < -70_368_744_177_664))
            || (c.gt && c.lt) || (c.nx && c.xx) || (c.nx && c.gt) || (c.nx && c.lt)
    ensures DoExpire(kind, n, c, slot, now).reply.Err? ==> DoExpire(kind, n, c, slot, now).slot == slot
  {
  }

  ghost predicate GetExLeaves(o: Opt, e: Entry, now: int, exp: int)
    requires e.val.Text?
  {
    DoGetEx([o], Some(e), now) == Result(Some(Entry(e.val, exp)), Bulk(e.val.data))
  }

  /** One option of GETEX: the text is the answer, and the deadline changes unless the option is refused. */
  lemma GetExMeans(o: Opt, e: Entry, now: int)
    requires e.val.Text? && !Past(e.exp, now) && Clock(now)
    ensures o.Ex? && !(0 < o.n <= 70_368_744_177) ==> DoGetEx([o], Some(e), now) == Result(Some(e), Err)
    ensures o.Px? && !(0 < o.n <= 70_368_744_177_664) ==> DoGetEx([o], Some(e), now) == Result(Some(e), Err)
    ensures o.Ex? && 0 < o.n <= 9_223_372_036 ==> GetExLeaves(o, e, now, now + 1000 * o.n)
    ensures o.Px? && 0 < o.n <= MAX_TTL_MS ==> GetExLeaves(o, e, now, now + o.n)
    ensures o.ExAt? && -70_368_744_177 <= o.n <= 70_368_744_177 ==> GetExLeaves(o, e, now, 1000 * o.n)
    ensures o.PxAt? ==> GetExLeaves(o, e, now, o.n)
    ensures o.Drop? ==> GetExLeaves(o, e, now, 0)
    ensures !IsExpiry(o) && !o.Drop? ==> DoGetEx([o], Some(e), now) == Result(Some(e), Err)
  {
    var out := Bulk(e.val.data);
    OneGetEx(o, Some(e), now, out);
    hide GetExOpts;
  }

  lemma OneGetEx(o: Opt, slot: Slot, now: int, out: Reply)
    ensures GetExOpts([o], slot, now, out) ==
            if GetExOpt(o, slot, now).Reject? then Result(slot, Err) else Result(GetExOpt(o, slot, now).slot, out)
  {
    hide GetExOpt;
    var step := GetExOpt(o, slot, now);
    if step.Next? { assert [o][1..] == [] && GetExOpts([], step.slot, now, out) == Result(step.slot, out); }
  }

  /** PERSIST answers 1 when there was a deadline to drop. */
  lemma PersistMeans(key: Key, slot: Slot, now: int)
    ensures var r, live := Apply(Persist(key), slot, now), Current(slot, now);
            r == if live.Some? && live.value.exp != 0 then Result(Some(Entry(live.value.val, 0)), Int(1)) else Result(slot, Int(0))
  {
  }

  /** DEL answers 1 when there was a key. */
  lemma DeleteMeans(key: Key, slot: Slot, now: int)
    ensures Apply(Delete(key), slot, now) == Result(None, Int(if Current(slot, now).Some? then 1 else 0))
  {
  }

  /** GETDEL answers the text and takes the key away, unless it holds a container. */
  lemma GetDelMeans(key: Key, slot: Slot, now: int)
    ensures Apply(GetDel(key), slot, now) ==
            if HoldsContainer(slot, now) then Result(slot, Err) else Result(None, OldText(slot, now))
  {
  }

  /** SETEX and PSETEX: an error for a count that is not positive, otherwise the text under the new deadline. */
  lemma SetExMeans(key: Key, n: int, val: Bytes, millis: bool, slot: Slot, now: int)
    ensures var r := Apply(SetEx(key, n, val, millis), slot, now);
            && (n <= 0 ==> r == Result(slot, Err))
            && (0 < n <= 9_223_372_036 ==> r == Result(Some(Entry(Text(val), now + if millis then n else 1000 * n)), Okay))
  {
    if 0 < n <= 9_223_372_036 { assert Ns(n, Unit(millis)) == n * Unit(millis); }
  }
}
