/** Writing and loading whole snapshot files. */
module Rdb {
  import opened Base
  import opened Decimal
  import opened RdbFormat
  import opened RdbModel
  import opened RdbParse
  import opened SortedElements
  import Crc64
  import Lzf
  import P = Pairs

  lemma IsRecsSnoc(ps: seq<Bytes>, recs: seq<Rec>, b: Bytes, r: Rec)
    requires IsRecs(ps, recs) && IsRec(b, r)
    ensures IsRecs(ps + [b], recs + [r]) && Flat(ps + [b]) == Flat(ps) + b
  {
    hide IsRec;
    FlatConcat(ps, [b]);
    FlatOne(b);
  }

  lemma IsStringsSnoc(ps: seq<Bytes>, items: seq<Bytes>, b: Bytes, x: Bytes)
    requires IsStrings(ps, items) && IsString(b, x)
    ensures IsStrings(ps + [b], items + [x]) && Flat(ps + [b]) == Flat(ps) + b
  {
    hide IsString;
    FlatConcat(ps, [b]);
    FlatOne(b);
  }

  // ---------------------------------------------------------------------------

  class Encoder {
    const table: seq<bv64>
    var w: Bytes
    var crc: bv64

    /** The running checksum covers everything written so far. */
    ghost predicate Valid()
      reads this
    {
      Crc64.IsTable(table) && crc == Crc64.Crc(0, w)
    }

    constructor ()
      ensures Valid() && w == []
    {
      var t := Crc64.InitTable();
      table, w, crc := t, [], 0;
    }

    method WriteRaw(b: Bytes)
      requires Valid()
      modifies this
      ensures Valid() && w == old(w) + b
    {
      hide Crc64.Crc, Crc64.IsTable;
      Crc64.CrcConcat(0, w, b);
      crc := Crc64.Update(table, crc, b);
      w := w + b;
    }

    method WriteLen(n: nat)
      requires Valid() && n < TWO_64
      modifies this
      ensures Valid() && w == old(w) + EncodeLen(n)
    {
      WriteRaw(EncodeLen(n));
    }

    /** Write a string, compressed when that is shorter. */
    method WriteString(data: Bytes) returns (ghost b: Bytes)
      requires Valid() && |data| < TWO_64
      modifies this
      ensures Valid() && w == old(w) + b && IsString(b, data)
    {
      hide Crc64.Crc, Crc64.IsTable, EncodeLen, Lzf.Decode;
      if |data| >= 20 {
        var compressed := Lzf.Compress(data);
        if compressed.Some? {
          var c := compressed.value;
          WriteRaw([0xC3]);
          WriteLen(|c|);
          WriteLen(|data|);
          WriteRaw(c);
          b := LzfString(data, c);
          return;
        }
      }
      WriteLen(|data|);
      WriteRaw(data);
      b := RawString(data);
    }

    method WriteStrings(items: seq<Bytes>) returns (ghost ps: seq<Bytes>)
      requires Valid() && forall i :: 0 <= i < |items| ==> |items[i]| < TWO_64
      modifies this
      ensures Valid() && w == old(w) + Flat(ps) && IsStrings(ps, items)
    {
      hide Encoder.Valid, IsString, Flat;
      ps := [];
      FlatNone();
      var i := 0;
      while i < |items|
        invariant 0 <= i <= |items|
        invariant Valid() && w == old(w) + Flat(ps) && IsStrings(ps, items[..i])
      {
        ghost var b := WriteString(items[i]);
        IsStringsSnoc(ps, items[..i], b, items[i]);
        assert items[..i] + [items[i]] == items[..i + 1];
        ps := ps + [b];
        i := i + 1;
      }
      assert items[..i] == items;
    }

    method WriteAux(name: Bytes, text: Bytes) returns (ghost b: Bytes)
      requires Valid() && |name| < TWO_64 && |text| < TWO_64
      modifies this
      ensures Valid() && w == old(w) + b && IsRec(b, Aux(name, text))
    {
      hide Encoder.Valid, IsString;
      WriteRaw([OP_AUX]);
      ghost var x := WriteString(name);
      ghost var y := WriteString(text);
      b := [OP_AUX] + (x + y);
    }

    method WriteSelectDB(n: nat) returns (ghost b: Bytes)
      requires Valid() && n < TWO_64
      modifies this
      ensures Valid() && w == old(w) + b && IsRec(b, Select(n))
    {
      hide Encoder.Valid, EncodeLen;
      WriteRaw([OP_SELECT]);
      WriteLen(n);
      b := [OP_SELECT] + EncodeLen(n);
    }

    method WriteObject(key: Bytes, body: Body) returns (ghost b: Bytes)
      requires Valid() && |key| < TWO_64 && Count(body) < TWO_64
      requires forall i :: 0 <= i < |Strings(body)| ==> |Strings(body)[i]| < TWO_64
      modifies this
      ensures Valid() && w == old(w) + b && IsRec(b, Object(key, body))
    {
      hide Encoder.Valid, EncodeLen, IsString, Flat, Strings, TypeByte;
      WriteRaw([TypeByte(body)]);
      ghost var k := WriteString(key);
      if !body.Str? { WriteLen(Count(body)); }
      ghost var ps := WriteStrings(Strings(body));
      b := [TypeByte(body)] + (k + (CountBytes(body) + Flat(ps)));
      assert IsObject(b, key, body, k, ps);
    }

    /** Print the scores that need it, then write. */
    method WriteEntry(e: DBEntry, format: Score -> Bytes) returns (ghost ps: seq<Bytes>)
      requires Valid() && Writable(ListingOf(e, format))
      modifies this
      ensures Valid() && w == old(w) + Flat(ps) && IsRecs(ps, RecsOf(ListingOf(e, format)))
    {
      hide Encoder.Valid, IsRec, Flat, Writable;
      var body := PrintObject(e.obj, format);
      ps := WriteListing(Listing(e.key, body, e.expireAt));
    }

    /** Optional deadline record, then the object. */
    method WriteListing(e: Listing) returns (ghost ps: seq<Bytes>)
      requires Valid() && Writable(e)
      modifies this
      ensures Valid() && w == old(w) + Flat(ps) && IsRecs(ps, RecsOf(e))
    {
      hide Encoder.Valid, IsRec, Flat, Strings, Count;
      ps := [];
      FlatNone();
      if e.expireAt > 0 {
        WriteRaw([OP_EXPIRE_MS] + LeBytes(e.expireAt, 8));
        ghost var x: Bytes := [OP_EXPIRE_MS] + LeBytes(e.expireAt, 8);
        ExpireRec(e.expireAt);
        IsRecsSnoc([], [], x, Expire(e.expireAt));
        ps := [x];
        assert [] + [x] == [x] && [] + [Expire(e.expireAt)] == [Expire(e.expireAt)];
      }
      ghost var b := WriteObject(e.key, e.body);
      IsRecsSnoc(ps, if e.expireAt > 0 then [Expire(e.expireAt)] else [], b, Object(e.key, e.body));
      ps := ps + [b];
    }

    method WriteFooter()
      requires Valid()
      modifies this
      ensures w == old(w) + [OP_EOF] + LeBytes(Checksum(old(w) + [OP_EOF]), 8)
    {
      hide Crc64.Crc;
      WriteRaw([OP_EOF]);
      w := w + LeBytes(crc as int, 8);
    }
  }

  method PrintObject(obj: Obj, format: Score -> Bytes) returns (body: Body)
    ensures body == Print(obj, format)
  {
    if obj.Texts? { return obj.body; }
    var es, ps, i := obj.elements, [], 0;
    while i < |es|
      invariant 0 <= i <= |es| && ps == PrintScores(es[..i], format)
    {
      assert es[..i + 1][..i] == es[..i];
      ps := ps + [P.Pair(es[i].member, format(es[i].score))];
      i := i + 1;
    }
    assert es[..i] == es;
    return ZSet(ps);
  }

  /** Lengths and deadlines fit the 64-bit integers they are kept in. */
  ghost predicate Writable(e: Listing) {
    && |e.key| < TWO_64 && Count(e.body) < TWO_64 && e.expireAt <= MAX_INT64
    && forall i :: 0 <= i < |Strings(e.body)| ==> |Strings(e.body)[i]| < TWO_64
  }

  lemma FlatNone()
    ensures Flat<byte>([]) == []
  {
  }

  lemma ExpireRec(at: nat)
    requires at <= MAX_INT64
    ensures IsRec([OP_EXPIRE_MS] + LeBytes(at, 8), Expire(at))
  {
  }

  /** The records a saved file holds: three notes, the database number, then every entry. */
  function FileRecs(ctime: Bytes, es: seq<Listing>): seq<Rec> {
    Preamble(ctime) + EntryRecs(es)
  }

  function Preamble(ctime: Bytes): seq<Rec> {
    [Aux(REDIS_VER, VERSION), Aux(REDIS_BITS, BITS), Aux(CTIME, ctime), Select(0)]
  }

  const REDIS_VER: Bytes := [114, 101, 100, 105, 115, 45, 118, 101, 114]
  const VERSION: Bytes := [55, 46, 50, 46, 48]
  const REDIS_BITS: Bytes := [114, 101, 100, 105, 115, 45, 98, 105, 116, 115]
  const BITS: Bytes := [54, 52]
  const CTIME: Bytes := [99, 116, 105, 109, 101]

  function EntryRecs(es: seq<Listing>): seq<Rec> {
    if es == [] then [] else EntryRecs(es[..|es| - 1]) + RecsOf(es[|es| - 1])
  }

  lemma IsRecsConcat(ps: seq<Bytes>, a: seq<Rec>, qs: seq<Bytes>, b: seq<Rec>)
    requires IsRecs(ps, a) && IsRecs(qs, b)
    ensures IsRecs(ps + qs, a + b) && Flat(ps + qs) == Flat(ps) + Flat(qs)
  {
    hide IsRec;
    FlatConcat(ps, qs);
  }

  /** Save a whole keyspace listing. */
  method Save(ctime: Bytes, es: seq<DBEntry>, format: Score -> Bytes) returns (file: Bytes, ghost ps: seq<Bytes>)
    requires |ctime| < TWO_64 && forall i :: 0 <= i < |es| ==> Writable(ListingOf(es[i], format))
    ensures IsFile(file, FileRecs(ctime, Listings(es, format)), ps, LeBytes(SumOf(ps), 8))
  {
    hide Encoder.Valid, IsRec, Flat, Writable, Checksum, RecsOf, ListingOf;
    ghost var ls := Listings(es, format);
    var enc := new Encoder();
    enc.WriteRaw(HEADER);
    ghost var b1 := enc.WriteAux(REDIS_VER, VERSION);
    ghost var b2 := enc.WriteAux(REDIS_BITS, BITS);
    ghost var b3 := enc.WriteAux(CTIME, ctime);
    ghost var b4 := enc.WriteSelectDB(0);
    ps := [b1, b2, b3, b4];
    FourPieces(b1, b2, b3, b4);
    ghost var recs := Preamble(ctime);
    var i := 0;
    while i < |es|
      invariant 0 <= i <= |es|
      invariant enc.Valid() && fresh(enc) && enc.w == HEADER + Flat(ps)
      invariant recs == Preamble(ctime) + EntryRecs(ls[..i]) && IsRecs(ps, recs)
    {
      ghost var qs := enc.WriteEntry(es[i], format);
      IsRecsConcat(ps, recs, qs, RecsOf(ls[i]));
      assert ls[..i + 1][..i] == ls[..i];
      ps, recs := ps + qs, recs + RecsOf(ls[i]);
      i := i + 1;
    }
    assert ls[..i] == ls;
    enc.WriteFooter();
    file := enc.w;
  }

  lemma FourPieces(a: Bytes, b: Bytes, c: Bytes, d: Bytes)
    ensures Flat([a, b, c, d]) == a + b + c + d
  {
    FlatOne(d);
    assert [c, d][1..] == [d] && Flat([c, d]) == c + d;
    assert [b, c, d][1..] == [c, d] && Flat([b, c, d]) == b + (c + d);
    assert [a, b, c, d][1..] == [b, c, d] && Flat([a, b, c, d]) == a + (b + (c + d));
  }

  // ---------------------------------------------------------------------------

  class Decoder {
    const table: seq<bv64>
    const input: Bytes
    var pos: int
    var crc: bv64
    ghost var failed: bool   // a read ran off the end, after which the checksum is not kept

    ghost predicate Valid()
      reads this
    {
      && 0 <= pos <= |input| && Crc64.IsTable(table)
      && (if failed then pos == |input| else crc == Crc64.Crc(0, input[..pos]))
    }

    constructor (input: Bytes)
      ensures Valid() && this.input == input && pos == 0 && !failed
    {
      var t := Crc64.InitTable();
      table, this.input, pos, crc, failed := t, input, 0, 0, false;
    }

    /** What is left to read. */
    ghost function Rest(): Bytes
      requires 0 <= pos <= |input|
      reads this
    {
      input[pos..]
    }

    method ReadFull(n: nat) returns (r: Option<Bytes>)
      requires Valid()
      modifies this`pos, this`crc, this`failed
      ensures Valid() && pos == old(pos) + Within(n, old(Rest()))
      ensures r == if n <= |old(Rest())| then Some(old(Rest())[..n]) else None
    {
      hide Crc64.Crc, Crc64.IsTable;
      if pos + n > |input| {
        pos, failed := |input|, true;
        return None;
      }
      var b := input[pos..pos + n];
      assert b == Rest()[..n];
      Crc64.CrcConcat(0, input[..pos], b);
      assert input[..pos] + b == input[..pos + n];
      crc := Crc64.Update(table, crc, b);
      pos := pos + n;
      return Some(b);
    }

    method ReadByte() returns (r: Option<byte>)
      requires Valid()
      modifies this`pos, this`crc, this`failed
      ensures Valid() && pos == old(pos) + Within(1, old(Rest()))
      ensures r == if old(Rest()) != [] then Some(old(Rest())[0]) else None
    {
      hide Decoder.Valid;
      Bounds();
      var b := ReadFull(1);
      r := if b.Some? then Some(b.value[0]) else None;
    }

    lemma Bounds()
      requires Valid()
      ensures 0 <= pos <= |input|
    {
    }

    /** Exactly what the format says is at the current position. */
    method ReadLen() returns (r: LenResult)
      requires Valid() && 0 <= pos <= |input|
      modifies this`pos, this`crc, this`failed
      ensures Valid() && r == ParseLen(old(Rest())) && pos == old(pos) + LenSize(old(Rest()))
    {
      hide Decoder.Valid, BeValue;
      ghost var s := Rest();
      Bounds();
      var first := ReadByte();
      if first.None? { return LenErr; }
      Bounds();
      assert Rest() == s[1..];
      var low: int := first.value % 64;
      if first.value / 64 == 0 {
        return Len(low, 1);
      } else if first.value / 64 == 1 {
        var second := ReadByte();
        if second.None? { return LenErr; }
        return Len(low * 256 + second.value, 2);
      } else if first.value / 64 == 2 {
        if first.value == 0x80 {
          var buf := ReadFull(4);
          if buf.None? { return LenErr; }
          assert buf.value == s[1..5];
          return Len(BeValue(buf.value), 5);
        } else if first.value == 0x81 {
          var buf := ReadFull(8);
          if buf.None? { return LenErr; }
          assert buf.value == s[1..9];
          return Len(BeValue(buf.value), 9);
        }
        return LenErr;
      }
      return Special(low, 1);
    }

    /** Exactly what the format says, or nothing. */
    method ReadString() returns (r: Option<Bytes>)
      requires Valid() && 0 <= pos <= |input|
      modifies this`pos, this`crc, this`failed
      ensures Valid() && pos == old(pos) + StringSize(old(Rest()))
      ensures var p := ParseString(old(Rest())); r == if p.Some? then Some(p.value.data) else None
    {
      hide Decoder.Valid, ParseLen, Lzf.Decode, LeValue;
      ghost var s := Rest();
      var l := ReadLen();
      Bounds();
      if l.LenErr? { return None; }
      assert Rest() == s[l.size..];
      if l.Len? {
        r := ReadFull(l.value);
        if r.Some? { assert s[l.size..][..l.value] == s[l.size..l.size + l.value]; }
        return;
      }
      SpecialSize(s);
      if l.kind > 3 { return None; }
      if l.kind == 3 {
        r := ReadLzf(s);
        return;
      }
      var n := if l.kind == 0 then 1 else if l.kind == 1 then 2 else 4;
      var buf := ReadFull(n);
      if buf.None? { return None; }
      assert s[1..][..n] == s[1..1 + n];
      return Some(FormatInt(Signed(LeValue(buf.value), n)));
    }

    /** The compressed form, after its marker byte. */
    method ReadLzf(ghost s: Bytes) returns (r: Option<Bytes>)
      requires Valid() && 0 <= pos <= |input| && |s| > 0 && s[1..] == Rest()
      modifies this`pos, this`crc, this`failed
      ensures Valid() && pos + 1 == old(pos) + LzfSize(s)
      ensures var p := ParseLzf(s); r == if p.Some? then Some(p.value.data) else None
    {
      hide Decoder.Valid, ParseLen, Lzf.Decode;
      var c := ReadLen();
      Bounds();
      if c.LenErr? { return None; }
      assert Rest() == s[1 + c.size..];
      var u := ReadLen();
      Bounds();
      if u.LenErr? { return None; }
      ghost var start := 1 + c.size + u.size;
      assert Rest() == s[start..];
      var data := ReadFull(PlainLen(c));
      if data.None? { return None; }
      assert s[start..][..PlainLen(c)] == s[start..start + PlainLen(c)];
      r := Lzf.Decompress(data.value, PlainLen(u));
    }

    /** Read `n` strings in a row. */
    method ReadStrings(n: nat) returns (r: Option<seq<Bytes>>)
      requires Valid() && 0 <= pos <= |input|
      modifies this`pos, this`crc, this`failed
      ensures var p := ParseStrings(n, old(Rest())); Valid() && r == p.items && pos == old(pos) + p.size
    {
      hide Decoder.Valid, ParseString, StringSize, ParseStrings;
      ghost var all := ParseStrings(n, Rest());
      var out := [];
      var i := 0;
      AfterNothing(all);
      while i < n
        invariant 0 <= i <= n && Valid() && old(pos) <= pos <= |input|
        invariant all == After(out, pos - old(pos), ParseStrings(n - i, Rest()))
      {
        ghost var s, at := Rest(), pos;
        StringsStep(n - i, s);
        var x := ReadString();
        Bounds();
        assert Rest() == s[StringSize(s)..];
        if x.None? { return None; }
        AfterStep(out, at - old(pos), x.value, pos - at, ParseStrings(n - i - 1, Rest()));
        out := out + [x.value];
        i := i + 1;
      }
      NoStrings(Rest());
      assert out + [] == out;
      return Some(out);
    }

    /** The strings of an object of type `kind`, after its key. */
    method ReadBody(kind: byte) returns (r: Option<Body>, err: bool)
      requires Valid() && 0 <= pos <= |input|
      modifies this`pos, this`crc, this`failed
      ensures Valid() && pos >= old(pos) && BodyRead(err, r, pos - old(pos)) == ParseBody(kind, old(Rest()))
    {
      hide Decoder.Valid, ParseStrings, ParseLen, LenSize, StringSize, ParseString, Rebuild;
      ghost var s := Rest();
      var n := 1;
      if kind in {1, 14, 2, 3, 5, 4} {
        var count := ReadLen();
        Bounds();
        if count.LenErr? { return None, true; }
        LenSizeIs(s);
        assert Rest() == s[count.size..];
        n := if kind in {1, 14, 2} then PlainLen(count) else 2 * PlainLen(count);
      } else if kind != 0 {
        var _ := ReadString();
        return None, false;
      }
      var strings := ReadStrings(n);
      if strings.None? { return None, true; }
      return Rebuild(kind, strings.value), false;
    }

    /** One object record, after its type byte. */
    method ReadObject(kind: byte, st: LoadState, now: int, parse: Bytes -> Score) returns (st': LoadState, err: bool)
      requires Valid() && 0 <= pos <= |input|
      modifies this`pos, this`crc, this`failed
      ensures Valid() && pos >= old(pos) && Read(st', pos - old(pos), err) == ParseObject(kind, old(Rest()), st, now, parse)
    {
      hide Decoder.Valid, ParseBody, StringSize, ParseString, Store, ValueOf;
      ghost var s := Rest();
      st', err := st, true;
      var name := ReadString();
      Bounds();
      if name.None? { return; }
      assert Rest() == s[StringSize(s)..];
      var value, bad := ReadBody(kind);
      if bad { return; }
      var keys := if value.Some? then Store(st.keys, name.value, ValueOf(value.value, parse), st.expireAt, now) else st.keys;
      st', err := LoadState(keys, 0), false;
    }

    /** One record of any kind, after its opcode byte. */
    method ReadRecord(op: byte, st: LoadState, now: int, parse: Bytes -> Score) returns (st': LoadState, err: bool)
      requires Valid() && 0 <= pos <= |input|
      modifies this`pos, this`crc, this`failed
      ensures Valid() && pos >= old(pos) && Read(st', pos - old(pos), err) == ParseRec(op, old(Rest()), st, now, parse)
    {
      hide Decoder.Valid, ParseObject, StringSize, ParseString, LenSize, ParseLen, LeValue;
      ghost var s := Rest();
      st', err := st, false;
      if op == OP_AUX {
        var _ := ReadString();
        Bounds();
        assert Rest() == s[StringSize(s)..];
        var _ := ReadString();
      } else if op == OP_SELECT {
        var _ := ReadLen();
      } else if op == OP_RESIZE {
        var _ := ReadLen();
        Bounds();
        assert Rest() == s[LenSize(s)..];
        var _ := ReadLen();
      } else if op == OP_EXPIRE_MS {
        var buf := ReadFull(8);
        if buf.None? { return st, true; }
        st' := st.(expireAt := Wrap64(LeValue(buf.value)));
      } else if op == OP_EXPIRE_SEC {
        var buf := ReadFull(4);
        if buf.None? { return st, true; }
        st' := st.(expireAt := LeValue(buf.value) * 1000);
      } else {
        st', err := ReadObject(op, st, now, parse);
      }
    }

    method ReadHeader() returns (ok: bool)
      requires Valid() && pos == 0
      modifies this`pos, this`crc, this`failed
      ensures Valid() && ok == GoodHeader(input) && (ok ==> pos == 9)
    {
      hide Decoder.Valid, ParseInt;
      Bounds();
      assert Rest() == input;
      var header := ReadFull(9);
      if header.None? { return false; }
      var h := header.value;
      assert h[..5] == input[..5] && h[5..] == input[5..9];
      if h[..5] != HEADER[..5] { return false; }
      var version := ParseInt(h[5..]);
      ok := version.Some? && 1 <= version.value <= 15;
    }

    /** Load a file into an empty keyspace: the answer and the keys are what its bytes come to, whatever they are. */
    method Load(now: int, parse: Bytes -> Score) returns (result: LoadResult, keys: Keyspace)
      requires Valid() && pos == 0 && !failed
      modifies this`pos, this`crc, this`failed
      ensures Verdict(result, keys) == LoadFile(input, now, parse)
    {
      hide Decoder.Valid, ParseRec, GoodHeader, EndVerdict;
      var st := LoadState(map[], 0);
      var ok := ReadHeader();
      Bounds();
      if !ok { return BadHeader, map[]; }
      ghost var all := ParseRun(Rest(), st, now, parse);
      while true
        invariant Valid() && 0 < pos <= |input| && GoodHeader(input)
        invariant all == ParseRun(input[9..], LoadState(map[], 0), now, parse) == ParseRun(Rest(), st, now, parse)
        decreases |input| - pos
      {
        ghost var s := Rest();
        var op := ReadByte();
        Bounds();
        if op.None? { return Loaded, st.keys; }
        assert Rest() == s[1..];
        if op.value == OP_EOF {
          Running();
          result := Verify();
          return result, st.keys;
        }
        ghost var t, at := Rest(), pos;
        var err;
        st, err := ReadRecord(op.value, st, now, parse);
        Bounds();
        assert Rest() == t[pos - at..];
        if err { return Corrupt, st.keys; }
      }
    }

    /** While there was a byte to read the checksum is kept. */
    lemma Running()
      requires Valid() && 0 <= pos <= |input|
      ensures pos < |input| ==> !failed
    {
    }

    /** Compare the trailing checksum with the running one. */
    method Verify() returns (result: LoadResult)
      requires Valid() && 0 <= pos <= |input| && (pos < |input| ==> !failed)
      ensures result == EndVerdict(input, pos)
    {
      hide Crc64.Crc, Crc64.IsTable, LeValue;
      if pos + 8 > |input| { return Loaded; }
      var expected := LeValue(input[pos..pos + 8]);
      if expected != 0 && expected != crc as int { return ChecksumMismatch; }
      return Loaded;
    }
  }

  lemma StringsStep(n: nat, s: Bytes)
    requires n > 0
    ensures ParseStrings(n, s) ==
            if ParseString(s).None? then Items(None, StringSize(s))
            else After([ParseString(s).value.data], StringSize(s), ParseStrings(n - 1, s[StringSize(s)..]))
  {
    hide ParseString, StringSize, After;
  }

  lemma NoStrings(s: Bytes)
    ensures ParseStrings(0, s) == Items(Some([]), 0)
  {
  }

  lemma AfterNothing(r: Items)
    ensures After([], 0, r) == r
  {
    if r.items.Some? { assert [] + r.items.value == r.items.value; }
  }

  lemma AfterStep(out: seq<Bytes>, used: nat, x: Bytes, n: nat, r: Items)
    ensures After(out, used, After([x], n, r)) == After(out + [x], used + n, r)
  {
    if r.items.Some? { assert out + ([x] + r.items.value) == out + [x] + r.items.value; }
  }

  lemma LenSizeIs(s: Bytes)
    ensures !ParseLen(s).LenErr? ==> LenSize(s) == ParseLen(s).size
  {
  }

  lemma SpecialSize(s: Bytes)
    ensures ParseLen(s).Special? ==> ParseLen(s).size == 1
  {
  }

  lemma ChecksumFits(b: Bytes)
    ensures LeValue(LeBytes(Checksum(b), 8)) == Checksum(b)
  {
    hide Crc64.Crc;
    Pow256Values();
    LeRoundTrip(Checksum(b), 8);
  }

  lemma AppliedNote(st: LoadState, r: Rec, now: int, parse: Bytes -> Score)
    requires r.Aux? || r.Select?
    ensures ApplyRec(st, r, now, parse) == st
  {
  }

  /** Folding the records of a saved file is loading its entries one by one. */
  lemma {:induction false} FoldEntries(es: seq<Listing>, now: int, parse: Bytes -> Score)
    ensures ApplyRecs(LoadState(map[], 0), EntryRecs(es), now, parse) == LoadState(LoadEntries(map[], es, now, parse), 0)
    decreases |es|
  {
    hide RecsOf, ApplyRec, LoadEntry;
    if es != [] {
      var front, e := es[..|es| - 1], es[|es| - 1];
      FoldEntries(front, now, parse);
      ApplyRecsConcat(LoadState(map[], 0), EntryRecs(front), RecsOf(e), now, parse);
      RecsOfEntry(LoadEntries(map[], front, now, parse), e, now, parse);
    }
  }

  lemma FoldPreamble(ctime: Bytes, rs: seq<Rec>, now: int, parse: Bytes -> Score)
    ensures ApplyRecs(LoadState(map[], 0), Preamble(ctime) + rs, now, parse) == ApplyRecs(LoadState(map[], 0), rs, now, parse)
  {
    hide ApplyRec;
    var st, p := LoadState(map[], 0), Preamble(ctime);
    ApplyRecsConcat(st, p, rs, now, parse);
    AppliedNote(st, p[0], now, parse);
    AppliedNote(st, p[1], now, parse);
    AppliedNote(st, p[2], now, parse);
    AppliedNote(st, p[3], now, parse);
    assert ApplyRecs(st, p[3..], now, parse) == ApplyRecs(st, p[3..][1..], now, parse) == st by { assert p[3..][1..] == []; }
    assert p[2..][1..] == p[3..] && ApplyRecs(st, p[2..], now, parse) == st;
    assert p[1..][1..] == p[2..] && ApplyRecs(st, p[1..], now, parse) == st;
    assert ApplyRecs(st, p, now, parse) == st;
  }

  /** Save then load: the checksum passes, and the keyspace comes back, values and deadlines alike,
      through every length form, the compressed path and the printing of scores, exactly when every
      deadline is loadable. */
  method SaveThenLoad(ctime: Bytes, es: seq<DBEntry>, now: int, format: Score -> Bytes, parse: Bytes -> Score, ghost saved: Keyspace)
    returns (result: LoadResult, keys: Keyspace)
    requires |ctime| < TWO_64 && forall i :: 0 <= i < |es| ==> Writable(ListingOf(es[i], format))
    ensures result == Loaded && keys == LoadEntries(map[], Listings(es, format), now, parse)
    ensures Snapshot(es, saved, parse) && (forall i :: 0 <= i < |es| ==> Printable(es[i].obj, format, parse)) ==>
              (keys == saved <==> forall i :: 0 <= i < |es| ==> Loadable(es[i].expireAt, now))
  {
    hide IsRecs, ApplyRecs, Writable, ListingOf, Listings, LoadEntries, Snapshot, Printable, Loadable, Checksum, Flat, Preamble, LoadFile, LeValue;
    var file, ps := Save(ctime, es, format);
    var dec := new Decoder(file);
    ghost var ls := Listings(es, format);
    result, keys := dec.Load(now, parse);
    FileReads(file, FileRecs(ctime, ls), ps, LeBytes(SumOf(ps), 8), now, parse);
    ChecksumFits(HEADER + Flat(ps) + [OP_EOF]);
    FoldPreamble(ctime, EntryRecs(ls), now, parse);
    FoldEntries(ls, now, parse);
    if Snapshot(es, saved, parse) && forall i :: 0 <= i < |es| ==> Printable(es[i].obj, format, parse) {
      SnapshotLoads(es, saved, now, format, parse);
    }
  }
}
