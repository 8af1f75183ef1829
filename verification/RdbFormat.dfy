/** Snapshot file format, version 9: integers, lengths and strings. */
module RdbFormat {
  import opened Base
  import opened Decimal
  import Lzf

  const TWO_32: nat := 0x1_0000_0000

  // ---------------------------------------------------------------------------
  // Fixed-width integers.

  function Pow256(n: nat): (p: nat)
    ensures p > 0
  {
    if n == 0 then 1 else 256 * Pow256(n - 1)
  }

  function LeBytes(v: nat, n: nat): (s: Bytes)
    ensures |s| == n
  {
    if n == 0 then [] else [v % 256] + LeBytes(v / 256, n - 1)
  }

  function LeValue(s: Bytes): nat {
    if s == [] then 0 else s[0] + 256 * LeValue(s[1..])
  }

  function BeBytes(v: nat, n: nat): (s: Bytes)
    ensures |s| == n
  {
    if n == 0 then [] else BeBytes(v / 256, n - 1) + [v % 256]
  }

  function BeValue(s: Bytes): nat {
    if s == [] then 0 else 256 * BeValue(s[..|s| - 1]) + s[|s| - 1]
  }

  lemma {:induction false} LeRoundTrip(v: nat, n: nat)
    requires v < Pow256(n)
    ensures LeValue(LeBytes(v, n)) == v
    decreases n
  {
    if n > 0 {
      LeRoundTrip(v / 256, n - 1);
      assert LeBytes(v, n)[1..] == LeBytes(v / 256, n - 1);
    }
  }

  lemma {:induction false} BeRoundTrip(v: nat, n: nat)
    requires v < Pow256(n)
    ensures BeValue(BeBytes(v, n)) == v
    decreases n
  {
    if n > 0 {
      BeRoundTrip(v / 256, n - 1);
      assert BeBytes(v, n)[..n - 1] == BeBytes(v / 256, n - 1);
    }
  }

  lemma Pow256Values()
    ensures Pow256(4) == TWO_32 && Pow256(8) == TWO_64
  {
    assert Pow256(2) == 65536;
    assert Pow256(4) == 256 * (256 * Pow256(2));
    assert Pow256(6) == 256 * (256 * Pow256(4));
    assert Pow256(8) == 256 * (256 * Pow256(6));
  }

  /** Two's complement reading of an `n`-byte value. */
  function Signed(v: nat, n: nat): int {
    if 2 * v >= Pow256(n) then v - Pow256(n) else v
  }

  /** Low byte first: byte `i` counts multiples of 256 to the power `i`. */
  lemma {:induction false} LittleEndian(v: nat, n: nat, i: nat)
    requires i < n
    ensures Pow256(i) > 0 && LeBytes(v, n)[i] == v / Pow256(i) % 256
    decreases n
  {
    if i > 0 {
      LittleEndian(v / 256, n - 1, i - 1);
      assert LeBytes(v, n)[i] == LeBytes(v / 256, n - 1)[i - 1];
      DivDiv(v, Pow256(i - 1));
    }
  }

  /** High byte first. */
  lemma {:induction false} BigEndian(v: nat, n: nat, i: nat)
    requires i < n
    ensures Pow256(n - 1 - i) > 0 && BeBytes(v, n)[i] == v / Pow256(n - 1 - i) % 256
    decreases n
  {
    if i < n - 1 {
      BigEndian(v / 256, n - 1, i);
      DivDiv(v, Pow256(n - 2 - i));
    }
  }

  lemma DivDiv(v: nat, p: nat)
    requires p > 0
    ensures 256 * p > 0 && v / 256 / p == v / (256 * p)
  {
    var q := v / 256 / p;
    var r := v / 256 % p;
    assert v / 256 == q * p + r;
    assert v == q * (256 * p) + (256 * r + v % 256);
    QuotientIs(v, 256 * p, q, 256 * r + v % 256);
  }

  lemma QuotientIs(v: nat, d: nat, q: nat, r: nat)
    requires d > 0 && v == q * d + r && r < d
    ensures v / d == q
  {
    var k := v / d;
    assert v == k * d + v % d;
    assert (q - k) * d == v % d - r;
    Narrow(q - k, d, v % d - r);
  }

  lemma Narrow(x: int, d: int, y: int)
    requires x * d == y && -d < y < d
    ensures x == 0
  {
    assert x >= 1 ==> x * d >= d;
    assert x <= -1 ==> x * d <= -d;
  }

  /** The bytes a signed number is kept in, as an unsigned one. */
  function Unsigned(m: int, n: nat): int {
    if m < 0 then m + Pow256(n) else m
  }

  predicate InSigned(m: int, n: nat) {
    var p: int := Pow256(n); -p <= 2 * m < p
  }

  lemma SignedBack(m: int, n: nat)
    requires InSigned(m, n)
    ensures 0 <= Unsigned(m, n) < Pow256(n) && Signed(Unsigned(m, n), n) == m
  {
    hide Pow256;
  }

  // ---------------------------------------------------------------------------
  // Lengths.

  function EncodeLen(n: nat): Bytes
    requires n < TWO_64
  {
    if n < 64 then [n]
    else if n < 16384 then [64 + n / 256, n % 256]
    else if n < TWO_32 then [0x80] + BeBytes(n, 4)
    else [0x81] + BeBytes(n, 8)
  }

  datatype LenResult = LenErr | Len(value: nat, size: nat) | Special(kind: nat, size: nat)

  function ParseLen(s: Bytes): (r: LenResult)
    ensures r.Len? || r.Special? ==> 1 <= r.size <= |s|
  {
    if s == [] then LenErr
    else
      var low: int := s[0] % 64;
      match s[0] / 64
      case 0 => Len(low, 1)
      case 1 => if |s| < 2 then LenErr else Len(low * 256 + s[1], 2)
      case 2 =>
        if s[0] == 0x80 then if |s| < 5 then LenErr else Len(BeValue(s[1..5]), 5)
        else if s[0] == 0x81 then if |s| < 9 then LenErr else Len(BeValue(s[1..9]), 9)
        else LenErr
      case _ => Special(low, 1)
  }

  /** What the first bytes of each form are. */
  lemma LengthBytes(n: nat)
    requires n < TWO_64
    ensures n < 0x40 ==> EncodeLen(n) == [n]
    ensures 0x40 <= n < 0x4000 ==> |EncodeLen(n)| == 2 && 0x4000 + n == EncodeLen(n)[0] as int * 256 + EncodeLen(n)[1]
    ensures 0x4000 <= n <= 0xFFFF_FFFF ==> |EncodeLen(n)| == 5 && EncodeLen(n)[0] == 0x80
    ensures 0x4000 <= n <= 0xFFFF_FFFF ==> forall i :: 1 <= i < 5 ==> EncodeLen(n)[i] == n / Pow256(4 - i) % 256
    ensures 0xFFFF_FFFF < n ==> |EncodeLen(n)| == 9 && EncodeLen(n)[0] == 0x81
    ensures 0xFFFF_FFFF < n ==> forall i :: 1 <= i < 9 ==> EncodeLen(n)[i] == n / Pow256(8 - i) % 256
  {
    forall i | 1 <= i < 5 ensures ([0x80] + BeBytes(n, 4))[i] == n / Pow256(4 - i) % 256 { BigEndian(n, 4, i - 1); }
    forall i | 1 <= i < 9 ensures ([0x81] + BeBytes(n, 8))[i] == n / Pow256(8 - i) % 256 { BigEndian(n, 8, i - 1); }
    hide BeBytes, Pow256;
  }

  /** All four length forms read back, whatever follows. */
  lemma LenRoundTrip(n: nat, rest: Bytes)
    requires n < TWO_64
    ensures ParseLen(EncodeLen(n) + rest) == Len(n, |EncodeLen(n)|)
  {
    var s := EncodeLen(n) + rest;
    Pow256Values();
    if n >= TWO_32 {
      assert s[1..9] == BeBytes(n, 8);
      BeRoundTrip(n, 8);
    } else if n >= 16384 {
      assert s[1..5] == BeBytes(n, 4);
      BeRoundTrip(n, 4);
    }
  }

  // ---------------------------------------------------------------------------
  // Strings.

  datatype Parsed = Parsed(data: Bytes, size: nat)

  /** A length the reader asked for without looking at its kind. */
  function PlainLen(r: LenResult): nat
    requires !r.LenErr?
  {
    if r.Len? then r.value else 0
  }

  function ParseInteger(s: Bytes, n: nat): Option<Parsed> {
    if |s| < 1 + n then None
    else Some(Parsed(FormatInt(Signed(LeValue(s[1..1 + n]), n)), 1 + n))
  }

  function ParseLzf(s: Bytes): Option<Parsed>
    requires |s| > 0
  {
    var c := ParseLen(s[1..]);
    if c.LenErr? then None
    else
      var u := ParseLen(s[1 + c.size..]);
      if u.LenErr? then None
      else
        var start, n := 1 + c.size + u.size, PlainLen(c);
        if start + n > |s| then None
        else
          var data := Lzf.Decode(s[start..start + n], []);
          if data.Some? && |data.value| == PlainLen(u) then Some(Parsed(data.value, start + n)) else None
  }

  function ParseString(s: Bytes): (r: Option<Parsed>)
    ensures r.Some? ==> 1 <= r.value.size <= |s|
  {
    var l := ParseLen(s);
    match l
    case LenErr => None
    case Len(n, k) => if k + n > |s| then None else Some(Parsed(s[k..k + n], k + n))
    case Special(kind, _) =>
      match kind
      case 0 => ParseInteger(s, 1)
      case 1 => ParseInteger(s, 2)
      case 2 => ParseInteger(s, 4)
      case 3 => ParseLzf(s)
      case _ => None
  }

  function IntegerWidth(kind: nat): nat { if kind == 0 then 1 else if kind == 1 then 2 else 4 }

  /** The three integer forms, which are only ever read: a signed number of 1, 2 or 4 bytes, low byte first. */
  lemma IntegerReads(m: int, kind: nat, rest: Bytes)
    requires kind <= 2 && InSigned(m, IntegerWidth(kind))
    ensures var n := IntegerWidth(kind);
            Unsigned(m, n) >= 0 && ParseString([0xC0 + kind] + LeBytes(Unsigned(m, n), n) + rest) == Some(Parsed(FormatInt(m), 1 + n))
  {
    var n := IntegerWidth(kind);
    SignedBack(m, n);
    var v := Unsigned(m, n);
    LeRoundTrip(v, n);
    hide LeValue, LeBytes, Signed, FormatInt, Pow256, Unsigned, InSigned;
    var s := [0xC0 + kind] + LeBytes(v, n) + rest;
    assert s[1..1 + n] == LeBytes(v, n);
    assert ParseLen(s) == Special(kind, 1);
  }

  /** The byte FF is -1. */
  lemma MinusOneReads()
    ensures ParseString([0xC0, 0xFF]) == Some(Parsed([45, 49], 2))
  {
    assert Pow256(1) == 256 && LeBytes(255, 1) == [255] + LeBytes(0, 0);
    IntegerReads(-1, 0, []);
    assert [0xC0] + [255] + [] == [0xC0, 0xFF];
    assert Digits(1) == [49] && FormatInt(-1) == [45, 49];
  }

  function RawString(data: Bytes): Bytes
    requires |data| < TWO_64
  {
    EncodeLen(|data|) + data
  }

  function LzfString(data: Bytes, c: Bytes): Bytes
    requires |data| < TWO_64 && |c| < TWO_64
  {
    [0xC3] + EncodeLen(|c|) + EncodeLen(|data|) + c
  }

  /** The two ways the encoder may write a string. */
  ghost predicate IsString(b: Bytes, data: Bytes) {
    && |data| < TWO_64
    && (b == RawString(data)
        || exists c :: |c| < TWO_64 && Lzf.Decode(c, []) == Some(data) && b == LzfString(data, c))
  }

  lemma RawReads(data: Bytes, rest: Bytes)
    requires |data| < TWO_64
    ensures ParseString(RawString(data) + rest) == Some(Parsed(data, |RawString(data)|))
  {
    hide EncodeLen, ParseLen;
    var l := EncodeLen(|data|);
    var s := RawString(data) + rest;
    assert s == l + (data + rest);
    LenRoundTrip(|data|, data + rest);
    assert s[|l|..|l| + |data|] == data;
  }

  lemma LzfReads(data: Bytes, c: Bytes, rest: Bytes)
    requires |data| < TWO_64 && |c| < TWO_64 && Lzf.Decode(c, []) == Some(data)
    ensures ParseString(LzfString(data, c) + rest) == Some(Parsed(data, |LzfString(data, c)|))
  {
    hide EncodeLen, BeValue, Lzf.Decode;
    var a, b := EncodeLen(|c|), EncodeLen(|data|);
    var s := LzfString(data, c) + rest;
    assert s[0] == 0xC3;
    assert s[1..] == a + (b + c + rest);
    LenRoundTrip(|c|, b + c + rest);
    assert s[1 + |a|..] == b + (c + rest);
    LenRoundTrip(|data|, c + rest);
    var start := 1 + |a| + |b|;
    assert s[start..start + |c|] == c;
    assert ParseLzf(s) == Some(Parsed(data, start + |c|));
  }

  /** Whichever form was written, the reader gets the bytes and stops right after them. */
  lemma StringReads(b: Bytes, data: Bytes, rest: Bytes)
    requires IsString(b, data)
    ensures ParseString(b + rest) == Some(Parsed(data, |b|))
  {
    hide ParseString, RawString, LzfString, Lzf.Decode;
    if b == RawString(data) {
      RawReads(data, rest);
    } else {
      var c :| |c| < TWO_64 && Lzf.Decode(c, []) == Some(data) && b == LzfString(data, c);
      LzfReads(data, c, rest);
    }
  }
}
