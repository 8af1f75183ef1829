/** The CRC64 of snapshot files: a table of 256 entries standing for a bit-serial division. */
module Crc64 {
  import opened Base

  const POLY: bv64 := 0xad93d23594c935a9

  function Xor(x: bv64, y: bv64): bv64 { x ^ y }

  /** One bit of the reflected division. */
  function Shift1(c: bv64): bv64 {
    if Odd(c) then Xor(Half(c), POLY) else Half(c)
  }

  predicate Odd(c: bv64) { c & 1 == 1 }

  function Half(c: bv64): bv64 { c >> 1 }

  function Shift4(c: bv64): bv64 { Shift1(Shift1(Shift1(Shift1(c)))) }

  function Shift8(c: bv64): bv64 { Shift4(Shift4(c)) }

  /** Feed a byte, then divide by eight bits. */
  function Feed(c: bv64, b: byte): bv64 { Shift8(Xor(c, OfByte(b))) }

  function OfByte(b: byte): bv64 { b as bv64 }

  function LowByte(x: bv64): byte { (x & 0xFF) as int }

  /** The checksum by definition. */
  function Crc(c: bv64, data: Bytes): bv64
    decreases |data|
  {
    if data == [] then c else Crc(Feed(c, data[0]), data[1..])
  }

  /**
   * The checksum of "123456789". The published check value of the CRC that Redis uses is another: it
   * belongs to the same polynomial with its bits reversed, as a division from the low end wants it.
   */
  lemma CheckValue()
    ensures Crc(0, CHECK_TEXT) == 0xcf228cf2176e85ed != REDIS_CHECK
  {
    assert CHECK_TEXT == [49, 50, 51] + ([52, 53, 54] + [55, 56, 57]);
    CheckStart();
    CheckMiddle();
    CheckEnd();
    hide Feed, Crc;
    CrcConcat(0, [49, 50, 51], [52, 53, 54] + [55, 56, 57]);
    CrcConcat(0x7e52d404f35eccde, [52, 53, 54], [55, 56, 57]);
  }

  const CHECK_TEXT: Bytes := [49, 50, 51, 52, 53, 54, 55, 56, 57]
  const REDIS_CHECK: bv64 := 0xe9c6d914c4b8d9ca

  lemma CheckStart()
    ensures Crc(0, [49, 50, 51]) == 0x7e52d404f35eccde
  {
    hide Feed, Crc;
    CrcThree(0, 49, 50, 51);
    FeedInHalves(0, 49, 0xc58cb5e48906c4a1, 0xc9d47ebac196a8e8);
    FeedInHalves(0xc9d47ebac196a8e8, 50, 0x71305a7c034fbd33, 0x12a17fe172addd66);
    FeedInHalves(0x12a17fe172addd66, 51, 0x3ffc9935c081b60a, 0x7e52d404f35eccde);
  }

  lemma CheckMiddle()
    ensures Crc(0x7e52d404f35eccde, [52, 53, 54]) == 0xbb82bf44be7c9fe5
  {
    hide Feed, Crc;
    CrcThree(0x7e52d404f35eccde, 52, 53, 54);
    FeedInHalves(0x7e52d404f35eccde, 52, 0x7a4830d7e0633b70, 0x07a4830d7e0633b7);
    FeedInHalves(0x07a4830d7e0633b7, 53, 0xd0448792ec7f812f, 0x4e7fdb25563a4473);
    FeedInHalves(0x4e7fdb25563a4473, 54, 0x3a31737982c8cf9b, 0xbb82bf44be7c9fe5);
  }

  lemma CheckEnd()
    ensures Crc(0xbb82bf44be7c9fe5, [55, 56, 57]) == 0xcf228cf2176e85ed
  {
    hide Feed, Crc;
    CrcThree(0xbb82bf44be7c9fe5, 55, 56, 57);
    FeedInHalves(0xbb82bf44be7c9fe5, 55, 0xdb86e45670782bea, 0x701573d2c8515500);
    FeedInHalves(0x701573d2c8515500, 56, 0xaa928508b84c20fa, 0x770435c724d215b1);
    FeedInHalves(0x770435c724d215b1, 57, 0xaae39169e68414f1, 0xcf228cf2176e85ed);
  }

  lemma FeedInHalves(c: bv64, b: byte, h: bv64, r: bv64)
    requires Shift4(Xor(c, OfByte(b))) == h && Shift4(h) == r
    ensures Feed(c, b) == r
  {
  }

  lemma CrcThree(c: bv64, x: byte, y: byte, z: byte)
    ensures Crc(c, [x, y, z]) == Feed(Feed(Feed(c, x), y), z)
  {
    hide Feed;
    assert [x, y, z][1..] == [y, z] && [y, z][1..] == [z] && [z][1..] == [];
    assert Crc(Feed(Feed(c, x), y), [z]) == Feed(Feed(Feed(c, x), y), z);
  }

  /** Where the reads are split does not matter, so writer and reader agree however they chunk. */
  lemma {:induction false} CrcConcat(c: bv64, a: Bytes, b: Bytes)
    ensures Crc(c, a + b) == Crc(Crc(c, a), b)
    decreases |a|
  {
    hide Feed;
    if a == [] {
      assert a + b == b;
    } else {
      assert (a + b)[0] == a[0] && (a + b)[1..] == a[1..] + b;
      CrcConcat(Feed(c, a[0]), a[1..], b);
    }
  }

  // ---------------------------------------------------------------------------
  // Why a table lookup of the low byte does the same.

  lemma OddXor(x: bv64, y: bv64)
    ensures Odd(Xor(x, y)) == (Odd(x) != Odd(y))
  {
  }

  lemma HalfXor(x: bv64, y: bv64)
    ensures Half(Xor(x, y)) == Xor(Half(x), Half(y))
  {
  }

  lemma XorMoves(x: bv64, y: bv64, p: bv64)
    ensures Xor(Xor(x, p), y) == Xor(Xor(x, y), p)
  {
    calc {
      Xor(Xor(x, p), y);
      Xor(x ^ p, y);
      (x ^ p) ^ y;
      { RawMoves(x, y, p); }
      (x ^ y) ^ p;
      Xor(x ^ y, p);
      Xor(Xor(x, y), p);
    }
  }

  lemma RawMoves(x: bv64, y: bv64, p: bv64)
    ensures (x ^ p) ^ y == (x ^ y) ^ p
  {
  }

  lemma XorCommutes(x: bv64, y: bv64)
    ensures Xor(x, y) == Xor(y, x)
  {
  }

  lemma XorCancels(x: bv64, p: bv64)
    ensures Xor(Xor(x, p), p) == x
  {
    assert (x ^ p) ^ p == x;
  }

  lemma Shift1Linear(x: bv64, y: bv64)
    ensures Shift1(Xor(x, y)) == Xor(Shift1(x), Shift1(y))
  {
    hide Odd, Half, Xor;
    var a, b, p := Half(x), Half(y), POLY;
    OddXor(x, y);
    HalfXor(x, y);
    XorMoves(a, b, p);
    XorMoves(b, a, p);
    XorCommutes(a, b);
    XorCommutes(a, Xor(b, p));
    XorMoves(a, Xor(b, p), p);
    XorCancels(Xor(a, b), p);
  }

  lemma Shift4Linear(x: bv64, y: bv64)
    ensures Shift4(Xor(x, y)) == Xor(Shift4(x), Shift4(y))
  {
    hide Shift1, Xor;
    var x1, y1 := Shift1(x), Shift1(y);
    var x2, y2 := Shift1(x1), Shift1(y1);
    var x3, y3 := Shift1(x2), Shift1(y2);
    Shift1Linear(x, y);
    Shift1Linear(x1, y1);
    Shift1Linear(x2, y2);
    Shift1Linear(x3, y3);
  }

  lemma Shift8Linear(x: bv64, y: bv64)
    ensures Shift8(Xor(x, y)) == Xor(Shift8(x), Shift8(y))
  {
    hide Shift4, Xor;
    Shift4Linear(x, y);
    Shift4Linear(Shift4(x), Shift4(y));
  }

  /** With the low byte clear, eight division steps are a shift by a byte. */
  lemma Shift8High(x: bv64)
    ensures Shift8(x & 0xFFFF_FFFF_FFFF_FF00) == x >> 8
  {
  }

  lemma Halves(x: bv64)
    ensures x == Xor(x & 0xFF, x & 0xFFFF_FFFF_FFFF_FF00)
  {
  }

  lemma HighPart(c: bv64, b: bv64)
    requires b <= 0xFF
    ensures Xor(c, b) >> 8 == c >> 8
  {
  }

  /** The table step: look up the low byte, shift the rest. */
  lemma TableStep(c: bv64, b: bv64)
    requires b <= 0xFF
    ensures Xor(Shift8(Xor(c, b) & 0xFF), c >> 8) == Shift8(Xor(c, b))
  {
    hide Shift8, Xor;
    var x := Xor(c, b);
    Halves(x);
    HighPart(c, b);
    Shift8Linear(x & 0xFF, x & 0xFFFF_FFFF_FFFF_FF00);
    Shift8High(x);
  }

  /** The table holds the division of every byte value. */
  ghost predicate IsTable(t: seq<bv64>) {
    |t| == 256 && forall i: byte :: t[i] == Shift8(OfByte(i))
  }

  method InitTable() returns (t: seq<bv64>)
    ensures IsTable(t)
  {
    hide Shift8, OfByte;
    t := [];
    while |t| < 256
      invariant |t| <= 256 && forall k: byte :: k < |t| ==> t[k] == Shift8(OfByte(k))
    {
      var crc := DivideByte(OfByte(|t|));
      t := t + [crc];
    }
  }

  method DivideByte(start: bv64) returns (crc: bv64)
    ensures crc == Shift8(start)
  {
    hide Odd, Half, Xor;
    crc := start;
    var j := 0;
    AllEight(start);
    while j < 8
      invariant 0 <= j <= 8
      invariant Shift8(start) == Remaining(crc, 8 - j)
    {
      crc := if Odd(crc) then Xor(Half(crc), POLY) else Half(crc);
      j := j + 1;
    }
  }

  function Remaining(c: bv64, n: nat): bv64
    decreases n
  {
    if n == 0 then c else Remaining(Shift1(c), n - 1)
  }

  lemma AllEight(c: bv64)
    ensures Remaining(c, 8) == Shift8(c)
  {
    hide Shift1;
    var d := Shift4(c);
    assert Remaining(c, 8) == Remaining(Shift1(Shift1(c)), 6);
    assert Remaining(Shift1(Shift1(c)), 6) == Remaining(d, 4);
    assert Remaining(d, 4) == Remaining(Shift1(Shift1(d)), 2);
  }

  /** The table-driven checksum is the checksum. */
  method Update(t: seq<bv64>, crc: bv64, data: Bytes) returns (c: bv64)
    requires IsTable(t)
    ensures c == Crc(crc, data)
  {
    hide Shift8, Xor, OfByte, LowByte, Feed;
    c := crc;
    var i := 0;
    assert data[0..] == data;
    while i < |data|
      invariant 0 <= i <= |data|
      invariant Crc(c, data[i..]) == Crc(crc, data)
    {
      assert data[i..][1..] == data[i + 1..];
      var x := Xor(c, OfByte(data[i]));
      FeedByTable(t, c, data[i]);
      c := Xor(t[LowByte(x)], c >> 8);
      i := i + 1;
    }
  }

  lemma FeedByTable(t: seq<bv64>, c: bv64, b: byte)
    requires IsTable(t)
    ensures Feed(c, b) == Xor(t[LowByte(Xor(c, OfByte(b)))], c >> 8)
  {
    hide Shift8, Xor, OfByte, LowByte;
    ByteFits(b);
    LowByteBack(Xor(c, OfByte(b)));
    TableStep(c, OfByte(b));
  }

  lemma ByteFits(b: byte)
    ensures OfByte(b) <= 0xFF
  {
  }

  lemma LowByteBack(x: bv64)
    ensures OfByte(LowByte(x)) == x & 0xFF
  {
    ThereAndBack(x & 0xFF);
  }

  lemma ThereAndBack(y: bv64)
    ensures (y as int) as bv64 == y
  {
  }
}
