/** The grammar of a snapshot file, and what reading any bytes as one means. */
module RdbParse {
  import opened Base
  import opened Decimal
  import opened RdbFormat
  import opened RdbModel
  import opened SortedElements
  import Crc64
  import Lzf
  import P = Pairs

  /** "REDIS0009". */
  const HEADER: Bytes := [82, 69, 68, 73, 83, 48, 48, 48, 57]

  ghost function Checksum(b: Bytes): nat {
    Crc64.Crc(0, b) as int
  }

  // ---------------------------------------------------------------------------
  // The grammar.

  ghost predicate IsStrings(ps: seq<Bytes>, items: seq<Bytes>) {
    |ps| == |items| && forall i :: 0 <= i < |ps| ==> IsString(ps[i], items[i])
  }

  ghost predicate IsObject(b: Bytes, key: Bytes, body: Body, k: Bytes, ps: seq<Bytes>) {
    && IsString(k, key) && IsStrings(ps, Strings(body)) && Count(body) < TWO_64
    && b == [TypeByte(body)] + (k + (CountBytes(body) + Flat(ps)))
  }

  ghost predicate IsRec(b: Bytes, r: Rec) {
    match r
    case Aux(name, text) => exists x, y :: IsString(x, name) && IsString(y, text) && b == [OP_AUX] + (x + y)
    case Select(n) => n < TWO_64 && b == [OP_SELECT] + EncodeLen(n)
    case Expire(at) => at <= MAX_INT64 && b == [OP_EXPIRE_MS] + LeBytes(at, 8)
    case Object(key, body) => exists k, ps :: IsObject(b, key, body, k, ps)
  }

  ghost predicate IsRecs(ps: seq<Bytes>, recs: seq<Rec>) {
    |ps| == |recs| && forall i :: 0 <= i < |ps| ==> IsRec(ps[i], recs[i])
  }

  /** The checksum a file of these pieces should end in. */
  ghost function SumOf(ps: seq<Bytes>): nat {
    Checksum(HEADER + Flat(ps) + [OP_EOF])
  }

  /** A file of these records, with `sum` where its checksum belongs. */
  ghost predicate IsFile(file: Bytes, recs: seq<Rec>, ps: seq<Bytes>, sum: Bytes) {
    IsRecs(ps, recs) && |sum| == 8 && file == HEADER + Flat(ps) + [OP_EOF] + sum
  }

  // ---------------------------------------------------------------------------
  // How far a read gets, also one that fails: to the end of the input when that is too short.

  function LenSize(s: Bytes): (n: nat)
    ensures n <= |s|
  {
    var r := ParseLen(s);
    if !r.LenErr? then r.size
    else if s != [] && s[0] / 64 == 2 && s[0] != 0x80 && s[0] != 0x81 then 1
    else |s|
  }

  function Within(n: nat, s: Bytes): (k: nat)
    ensures k <= |s|
  {
    if n <= |s| then n else |s|
  }

  function LzfSize(s: Bytes): (n: nat)
    requires |s| > 0
    ensures n <= |s|
    ensures ParseLzf(s).Some? ==> n == ParseLzf(s).value.size
  {
    var c := ParseLen(s[1..]);
    if c.LenErr? then 1 + LenSize(s[1..])
    else
      var u := ParseLen(s[1 + c.size..]);
      if u.LenErr? then 1 + c.size + LenSize(s[1 + c.size..])
      else Within(1 + c.size + u.size + PlainLen(c), s)
  }

  function StringSize(s: Bytes): (n: nat)
    ensures n <= |s|
    ensures ParseString(s).Some? ==> n == ParseString(s).value.size
  {
    match ParseLen(s)
    case LenErr => LenSize(s)
    case Len(n, k) => Within(k + n, s)
    case Special(kind, _) =>
      match kind
      case 0 => Within(2, s)
      case 1 => Within(3, s)
      case 2 => Within(5, s)
      case 3 => LzfSize(s)
      case _ => 1
  }

  // ---------------------------------------------------------------------------
  // What the loader makes of any bytes.

  datatype Items = Items(items: Option<seq<Bytes>>, size: nat)

  /** Strings read earlier, and what came after them. */
  function After(out: seq<Bytes>, used: nat, r: Items): Items {
    Items(if r.items.Some? then Some(out + r.items.value) else None, used + r.size)
  }

  function ParseStrings(n: nat, s: Bytes): (r: Items)
    ensures r.size <= |s| && (r.items.Some? ==> |r.items.value| == n)
    decreases n
  {
    if n == 0 then Items(Some([]), 0)
    else
      match ParseString(s)
      case None => Items(None, StringSize(s))
      case Some(p) => After([p.data], p.size, ParseStrings(n - 1, s[p.size..]))
  }

  /** `body` is none for a type the loader skips. */
  datatype BodyRead = BodyRead(err: bool, body: Option<Body>, size: nat)

  predicate Single(kind: byte) { kind in {1, 14, 2} }

  predicate Paired(kind: byte) { kind in {3, 5, 4} }

  function ParseBody(kind: byte, s: Bytes): (r: BodyRead)
    ensures r.size <= |s|
  {
    if Single(kind) || Paired(kind) then
      var l := ParseLen(s);
      if l.LenErr? then BodyRead(true, None, LenSize(s))
      else BodyOf(kind, l.size, ParseStrings(if Single(kind) then PlainLen(l) else 2 * PlainLen(l), s[l.size..]))
    else if kind == 0 then BodyOf(kind, 0, ParseStrings(1, s))
    else BodyRead(false, None, StringSize(s))
  }

  function BodyOf(kind: byte, used: nat, r: Items): BodyRead {
    if r.items.None? then BodyRead(true, None, used + r.size) else BodyRead(false, Rebuild(kind, r.items.value), used + r.size)
  }

  datatype Read = Read(st: LoadState, size: nat, err: bool)

  function ParseObject(kind: byte, s: Bytes, st: LoadState, now: int, parse: Bytes -> Score): (r: Read)
    ensures r.size <= |s|
  {
    match ParseString(s)
    case None => Read(st, StringSize(s), true)
    case Some(key) =>
      var r := ParseBody(kind, s[key.size..]);
      if r.err then Read(st, key.size + r.size, true)
      else
        var keys := if r.body.Some? then Store(st.keys, key.data, ValueOf(r.body.value, parse), st.expireAt, now) else st.keys;
        Read(LoadState(keys, 0), key.size + r.size, false)
  }

  /** One record after its opcode. Notes, database numbers and size hints are read and dropped, errors and all. */
  function ParseRec(op: byte, s: Bytes, st: LoadState, now: int, parse: Bytes -> Score): (r: Read)
    ensures r.size <= |s|
  {
    if op == OP_AUX then Read(st, StringSize(s) + StringSize(s[StringSize(s)..]), false)
    else if op == OP_SELECT then Read(st, LenSize(s), false)
    else if op == OP_RESIZE then Read(st, LenSize(s) + LenSize(s[LenSize(s)..]), false)
    else if op == OP_EXPIRE_MS then
      if |s| < 8 then Read(st, |s|, true) else Read(st.(expireAt := Wrap64(LeValue(s[..8]))), 8, false)
    else if op == OP_EXPIRE_SEC then
      if |s| < 4 then Read(st, |s|, true) else Read(st.(expireAt := LeValue(s[..4]) * 1000), 4, false)
    else ParseObject(op, s, st, now, parse)
  }

  /** Where the records end: at the end of the input, in an error, or at the end mark with so many bytes left. */
  datatype End = RanOut | Bad | EndMark(left: nat)

  datatype Outcome = Outcome(end: End, keys: Keyspace)

  function ParseRun(s: Bytes, st: LoadState, now: int, parse: Bytes -> Score): (r: Outcome)
    ensures r.end.EndMark? ==> r.end.left < |s|
    decreases |s|
  {
    if s == [] then Outcome(RanOut, st.keys)
    else if s[0] == OP_EOF then Outcome(EndMark(|s| - 1), st.keys)
    else
      var r := ParseRec(s[0], s[1..], st, now, parse);
      if r.err then Outcome(Bad, r.st.keys) else ParseRun(s[1..][r.size..], r.st, now, parse)
  }

  datatype LoadResult = Loaded | BadHeader | Corrupt | ChecksumMismatch

  datatype Verdict = Verdict(result: LoadResult, keys: Keyspace)

  /** Five letters and a version from 1 to 15. */
  predicate GoodHeader(input: Bytes) {
    |input| >= 9 && input[..5] == HEADER[..5]
    && var version := ParseInt(input[5..9]); version.Some? && 1 <= version.value <= 15
  }

  /** What the bytes from `end` on decide: the right checksum, or zero for none; fewer than eight decide nothing. */
  ghost function EndVerdict(input: Bytes, end: nat): (r: LoadResult)
    requires end <= |input|
  {
    if end + 8 > |input| then Loaded
    else
      var sum := LeValue(input[end..end + 8]);
      if sum == 0 || sum == Checksum(input[..end]) then Loaded else ChecksumMismatch
  }

  /** What loading any bytes into an empty keyspace comes to. */
  ghost function LoadFile(input: Bytes, now: int, parse: Bytes -> Score): Verdict {
    if !GoodHeader(input) then Verdict(BadHeader, map[])
    else
      var r := ParseRun(input[9..], LoadState(map[], 0), now, parse);
      match r.end
      case RanOut => Verdict(Loaded, r.keys)
      case Bad => Verdict(Corrupt, r.keys)
      case EndMark(left) => Verdict(EndVerdict(input, |input| - left), r.keys)
  }

  // ---------------------------------------------------------------------------
  // What was written is read.

  lemma FlatSplit(ps: seq<Bytes>, rest: Bytes)
    requires ps != []
    ensures Flat(ps) + rest == ps[0] + (Flat(ps[1..]) + rest)
  {
  }

  lemma Past(a: Bytes, b: Bytes)
    ensures (a + b)[|a|..] == b
  {
  }

  lemma {:induction false} StringsRead(ps: seq<Bytes>, items: seq<Bytes>, rest: Bytes)
    requires IsStrings(ps, items)
    ensures ParseStrings(|items|, Flat(ps) + rest) == Items(Some(items), |Flat(ps)|)
    decreases |ps|
  {
    hide IsString, ParseString, StringSize;
    if ps != [] {
      FlatSplit(ps, rest);
      StringReads(ps[0], items[0], Flat(ps[1..]) + rest);
      Past(ps[0], Flat(ps[1..]) + rest);
      StringsRead(ps[1..], items[1..], rest);
      assert [items[0]] + items[1..] == items;
    }
  }

  lemma BodyReads(body: Body, ps: seq<Bytes>, rest: Bytes)
    requires IsStrings(ps, Strings(body)) && Count(body) < TWO_64
    ensures var c := CountBytes(body);
            ParseBody(TypeByte(body), c + (Flat(ps) + rest)) == BodyRead(false, Some(body), |c| + |Flat(ps)|)
  {
    hide IsString, IsStrings, Flat, EncodeLen, ParseLen, ParseStrings, Rebuild, Strings;
    StringsRead(ps, Strings(body), rest);
    RebuildStrings(body);
    StringCount(body);
    if body.Str? {
      assert [] + (Flat(ps) + rest) == Flat(ps) + rest;
    } else {
      LenRoundTrip(Count(body), Flat(ps) + rest);
      Past(EncodeLen(Count(body)), Flat(ps) + rest);
    }
  }

  lemma StringCount(body: Body)
    ensures |Strings(body)| == if body.Hash? || body.ZSet? then 2 * Count(body) else Count(body)
  {
  }

  lemma ObjectReads(b: Bytes, key: Bytes, body: Body, rest: Bytes, st: LoadState, now: int, parse: Bytes -> Score)
    requires IsRec(b, Object(key, body))
    ensures |b| > 0 && b[0] == TypeByte(body)
    ensures ParseObject(b[0], b[1..] + rest, st, now, parse) == Read(ApplyRec(st, Object(key, body), now, parse), |b| - 1, false)
  {
    hide IsString, IsStrings, Flat, CountBytes, TypeByte, ParseString, ParseBody, Count, Store, ValueOf;
    var k, ps :| IsObject(b, key, body, k, ps);
    var c, p := CountBytes(body), Flat(ps);
    var tail := c + (p + rest);
    assert b[1..] == k + (c + p);
    assert b[1..] + rest == k + tail;
    StringReads(k, key, tail);
    Past(k, tail);
    BodyReads(body, ps, rest);
  }

  lemma NoteReads(b: Bytes, r: Rec, rest: Bytes)
    requires r.Aux? && IsRec(b, r)
    ensures |b| > 0 && b[0] == OP_AUX
    ensures var s := b[1..] + rest; StringSize(s) + StringSize(s[StringSize(s)..]) == |b| - 1
  {
    hide IsString, ParseString, StringSize;
    var x, y :| IsString(x, r.name) && IsString(y, r.text) && b == [OP_AUX] + (x + y);
    assert b[1..] == x + y;
    assert b[1..] + rest == x + (y + rest);
    StringReads(x, r.name, y + rest);
    Past(x, y + rest);
    StringReads(y, r.text, rest);
  }

  lemma SelectReads(b: Bytes, r: Rec, rest: Bytes)
    requires r.Select? && IsRec(b, r)
    ensures |b| > 0 && b[0] == OP_SELECT && LenSize(b[1..] + rest) == |b| - 1
  {
    hide EncodeLen, ParseLen;
    assert b[1..] == EncodeLen(r.db);
    LenRoundTrip(r.db, rest);
  }

  lemma DeadlineReads(b: Bytes, r: Rec, rest: Bytes)
    requires r.Expire? && IsRec(b, r)
    ensures |b| == 9 && b[0] == OP_EXPIRE_MS && |b[1..] + rest| >= 8 && Wrap64(LeValue((b[1..] + rest)[..8])) == r.at
  {
    hide LeValue;
    assert b[1..] == LeBytes(r.at, 8);
    assert (b[1..] + rest)[..8] == LeBytes(r.at, 8);
    Pow256Values();
    LeRoundTrip(r.at, 8);
  }

  /** A deadline in seconds, which is only ever read. */
  lemma SecondsRead(at: nat, rest: Bytes, st: LoadState, now: int, parse: Bytes -> Score)
    requires at < TWO_32
    ensures ParseRec(253, LeBytes(at, 4) + rest, st, now, parse) == Read(st.(expireAt := 1000 * at), 4, false)
  {
    Pow256Values();
    LeRoundTrip(at, 4);
    assert (LeBytes(at, 4) + rest)[..4] == LeBytes(at, 4);
    hide LeValue, LeBytes, Pow256;
  }

  /** Two more type bytes, which are only ever read: 14 is a list too, 5 a sorted set. */
  lemma OtherTypesRead(body: Body, ps: seq<Bytes>, rest: Bytes)
    requires (body.List? || body.ZSet?) && IsStrings(ps, Strings(body)) && Count(body) < TWO_64
    ensures var c := CountBytes(body);
            ParseBody(if body.List? then 14 else 5, c + (Flat(ps) + rest)) == BodyRead(false, Some(body), |c| + |Flat(ps)|)
  {
    BodyReads(body, ps, rest);
    hide IsStrings, ParseStrings, ParseLen, CountBytes, Flat, P.FromTexts;
  }

  /** The opcodes: 250 a note, 254 a database number, 252 a deadline in milliseconds. */
  lemma NoteBytes(x: Bytes, y: Bytes, name: Bytes, text: Bytes, n: nat, at: nat)
    requires IsString(x, name) && IsString(y, text) && n < TWO_64 && at <= MAX_INT64
    ensures IsRec([250] + (x + y), Aux(name, text)) && IsRec([254] + EncodeLen(n), Select(n))
    ensures IsRec([252] + LeBytes(at, 8), Expire(at))
  {
    hide IsString, EncodeLen, LeBytes;
  }

  /** The type bytes: 0 a string, 1 a list, 2 a set, each after its key and, but for a string, a count. */
  lemma ListBytes(k: Bytes, key: Bytes, ps: seq<Bytes>, items: seq<Bytes>)
    requires IsString(k, key) && IsStrings(ps, items) && |items| < TWO_64
    ensures IsRec([1] + (k + (EncodeLen(|items|) + Flat(ps))), Object(key, List(items)))
    ensures IsRec([2] + (k + (EncodeLen(|items|) + Flat(ps))), Object(key, Set(items)))
    ensures |items| == 1 ==> IsRec([0] + (k + ps[0]), Object(key, Str(items[0])))
  {
    hide IsString, EncodeLen, IsStrings, Flat;
    var tail := k + (EncodeLen(|items|) + Flat(ps));
    assert IsObject([1] + tail, key, List(items), k, ps) && IsObject([2] + tail, key, Set(items), k, ps);
    if |items| == 1 {
      SinglePiece(ps, items);
      assert [items[0]] == items && [] + ps[0] == ps[0];
      assert IsObject([0] + (k + ps[0]), key, Str(items[0]), k, ps);
    }
  }

  lemma SinglePiece(ps: seq<Bytes>, items: seq<Bytes>)
    requires IsStrings(ps, items) && |items| == 1
    ensures |ps| == 1 && Flat(ps) == ps[0]
  {
    hide IsString;
    assert ps == [ps[0]];
    FlatOne(ps[0]);
  }

  /** 3 a sorted set and 4 a hash: the count of pairs, then key and value in turn. */
  lemma PairBytes(k: Bytes, key: Bytes, ps: seq<Bytes>, pairs: seq<P.Pair>)
    requires IsString(k, key) && IsStrings(ps, P.Texts(pairs)) && |pairs| < TWO_64
    ensures IsRec([3] + (k + (EncodeLen(|pairs|) + Flat(ps))), Object(key, ZSet(pairs)))
    ensures IsRec([4] + (k + (EncodeLen(|pairs|) + Flat(ps))), Object(key, Hash(pairs)))
  {
    hide IsString, EncodeLen, IsStrings, Flat, P.Texts;
    var tail := k + (EncodeLen(|pairs|) + Flat(ps));
    assert IsObject([3] + tail, key, ZSet(pairs), k, ps) && IsObject([4] + tail, key, Hash(pairs), k, ps);
  }

  /** A file is "REDIS0009", the records, the byte 255 and eight bytes of checksum. */
  lemma FileBytes(ps: seq<Bytes>, recs: seq<Rec>, sum: Bytes)
    requires IsRecs(ps, recs) && |sum| == 8
    ensures IsFile([82, 69, 68, 73, 83, 48, 48, 48, 57] + Flat(ps) + [255] + sum, recs, ps, sum)
  {
    hide IsRecs, Flat;
  }

  /** A written record is read whole, whatever follows, and applied. */
  lemma RecReads(b: Bytes, r: Rec, rest: Bytes, st: LoadState, now: int, parse: Bytes -> Score)
    requires IsRec(b, r)
    ensures |b| > 0 && b[0] != OP_EOF
    ensures ParseRec(b[0], b[1..] + rest, st, now, parse) == Read(ApplyRec(st, r, now, parse), |b| - 1, false)
  {
    match r {
      case Aux(_, _) => NoteReads(b, r, rest);
      case Select(_) => SelectReads(b, r, rest);
      case Expire(_) => DeadlineReads(b, r, rest);
      case Object(key, body) => ObjectReads(b, key, body, rest, st, now, parse);
    }
    hide IsRec, StringSize, LenSize, LeValue, ParseObject, Wrap64, Store, ValueOf;
  }

  /** Written records in a row are read one by one, and applied in order. */
  lemma {:induction false} RunReads(ps: seq<Bytes>, recs: seq<Rec>, tail: Bytes, st: LoadState, now: int, parse: Bytes -> Score)
    requires IsRecs(ps, recs)
    ensures ParseRun(Flat(ps) + tail, st, now, parse) == ParseRun(tail, ApplyRecs(st, recs, now, parse), now, parse)
    decreases |ps|
  {
    hide IsRec, ParseRec, ApplyRec;
    if ps == [] {
      assert Flat(ps) + tail == tail;
    } else {
      var b, rest := ps[0], Flat(ps[1..]) + tail;
      FlatSplit(ps, tail);
      RecReads(b, recs[0], rest, st, now, parse);
      assert (b + rest)[0] == b[0] && (b + rest)[1..] == b[1..] + rest;
      Past(b[1..], rest);
      RunReads(ps[1..], recs[1..], tail, ApplyRec(st, recs[0], now, parse), now, parse);
    }
  }

  /** What becomes of a written file that ends in `sum`. */
  ghost function SumVerdict(ps: seq<Bytes>, sum: Bytes): LoadResult {
    if LeValue(sum) == 0 || LeValue(sum) == SumOf(ps) then Loaded else ChecksumMismatch
  }

  lemma HeaderVersion()
    ensures ParseInt(HEADER[5..]) == Some(9)
  {
    var d: Bytes := [48, 48, 48, 57];
    assert HEADER[5..] == d;
    var c: Bytes, b: Bytes, a: Bytes := [48, 48, 48], [48, 48], [48];
    assert a[..0] == [] && Decimal.Value(a) == 0;
    assert b[..1] == a && Decimal.Value(b) == 0;
    assert c[..2] == b && Decimal.Value(c) == 0;
    assert d[..3] == c && Decimal.Value(d) == 9;
  }

  lemma FileStarts(input: Bytes, ps: seq<Bytes>, sum: Bytes)
    requires input == HEADER + Flat(ps) + [OP_EOF] + sum
    ensures GoodHeader(input) && input[9..] == Flat(ps) + ([OP_EOF] + sum)
  {
    hide Flat;
    assert input == HEADER + (Flat(ps) + ([OP_EOF] + sum));
    HeaderVersion();
    assert input[5..9] == HEADER[5..];
  }

  /** A written file loads as the fold of its records, and is accepted if and only if its checksum is right or zero. */
  lemma FileReads(file: Bytes, recs: seq<Rec>, ps: seq<Bytes>, sum: Bytes, now: int, parse: Bytes -> Score)
    requires IsFile(file, recs, ps, sum)
    ensures LoadFile(file, now, parse) == Verdict(SumVerdict(ps, sum), ApplyRecs(LoadState(map[], 0), recs, now, parse).keys)
  {
    hide IsRec, Flat, Crc64.Crc, LeValue, ApplyRecs, ParseRec, GoodHeader;
    var st, tail := LoadState(map[], 0), [OP_EOF] + sum;
    FileStarts(file, ps, sum);
    RunReads(ps, recs, tail, st, now, parse);
    var head := HEADER + Flat(ps) + [OP_EOF];
    assert file[..|head|] == head && file[|head|..|head| + 8] == sum;
  }
}
