/** HyperLogLog sketches: 16384 registers of six bits, packed without gaps after a header. */
module Hll {
  import opened Base

  const HEADER: nat := 16
  const REGISTERS: nat := 16384
  const DENSE_SIZE: nat := HEADER + REGISTERS * 6 / 8
  const SIZE: nat := DENSE_SIZE + 2

  // ---------------------------------------------------------------------------
  // Packing.

  /** Four registers share three bytes, the first in the lowest bits. */
  function Word(b0: bv8, b1: bv8, b2: bv8): bv32 {
    (b0 as bv32) | ((b1 as bv32) << 8) | ((b2 as bv32) << 16)
  }

  function Pick(w: bv32, c: nat): bv8
    requires c < 4
  {
    if c == 0 then (w & 63) as bv8
    else if c == 1 then ((w >> 6) & 63) as bv8
    else if c == 2 then ((w >> 12) & 63) as bv8
    else ((w >> 18) & 63) as bv8
  }

  function GroupStart(k: nat): nat {
    HEADER + 3 * (k / 4)
  }

  function Reg(d: seq<bv8>, k: nat): (r: bv8)
    requires |d| >= SIZE && k < REGISTERS
    ensures r <= 63
  {
    Pick(Word(d[GroupStart(k)], d[GroupStart(k) + 1], d[GroupStart(k) + 2]), k % 4)
  }

  function Registers(d: seq<bv8>): (r: seq<bv8>)
    requires |d| >= SIZE
    ensures |r| == REGISTERS && forall k :: 0 <= k < REGISTERS ==> r[k] <= 63
  {
    seq(REGISTERS, k requires 0 <= k < REGISTERS => Reg(d, k))
  }

  /** Where the program finds a register: the byte it starts in, and the bit in that byte. */
  function ByteOffset(k: nat): nat { HEADER + k * 6 / 8 }

  function BitOffset(k: nat): nat { k * 6 % 8 }

  lemma Layout(k: nat)
    ensures k % 4 == 0 ==> ByteOffset(k) == GroupStart(k) && BitOffset(k) == 0
    ensures k % 4 == 1 ==> ByteOffset(k) == GroupStart(k) && BitOffset(k) == 6
    ensures k % 4 == 2 ==> ByteOffset(k) == GroupStart(k) + 1 && BitOffset(k) == 4
    ensures k % 4 == 3 ==> ByteOffset(k) == GroupStart(k) + 2 && BitOffset(k) == 2
    ensures k < REGISTERS ==> ByteOffset(k) + 1 < SIZE && GroupStart(k) + 3 < SIZE
  {
    assert k == 4 * (k / 4) + k % 4;
  }

  /** The program's expression for reading a register out of two neighbouring bytes. */
  function Extract(b0: bv8, b1: bv8, fb: bv32): bv8
    requires fb <= 8
  {
    ((((b0 as bv32) >> fb) | ((b1 as bv32) << (8 - fb))) & 63) as bv8
  }

  lemma ExtractPicks(b0: bv8, b1: bv8, b2: bv8, b3: bv8)
    ensures var w := Word(b0, b1, b2);
            && Extract(b0, b1, 0) == Pick(w, 0) && Extract(b0, b1, 6) == Pick(w, 1)
            && Extract(b1, b2, 4) == Pick(w, 2) && Extract(b2, b3, 2) == Pick(w, 3)
  {
  }

  /** The program's expressions for the two bytes after storing a register. */
  function LowByte(b: bv8, v: bv8, fb: bv8): bv8
    requires fb <= 8
  {
    (b & !(63 << fb)) | (v << fb)
  }

  function HighByte(b: bv8, v: bv8, fb: bv8): bv8
    requires fb <= 8
  {
    (b & !(63 >> (8 - fb))) | (v >> (8 - fb))
  }

  ghost predicate OnlyChanges(w: bv32, w': bv32, c: nat, v: bv8)
    requires c < 4
  {
    Pick(w', c) == v && forall c' :: 0 <= c' < 4 && c' != c ==> Pick(w', c') == Pick(w, c')
  }

  /** Storing a register changes that register and no other bit. */
  lemma StoreFirst(b0: bv8, b1: bv8, b2: bv8, v: bv8)
    requires v <= 63
    ensures OnlyChanges(Word(b0, b1, b2), Word(LowByte(b0, v, 0), HighByte(b1, v, 0), b2), 0, v)
  {
  }

  lemma StoreSecond(b0: bv8, b1: bv8, b2: bv8, v: bv8)
    requires v <= 63
    ensures OnlyChanges(Word(b0, b1, b2), Word(LowByte(b0, v, 6), HighByte(b1, v, 6), b2), 1, v)
  {
  }

  lemma StoreThird(b0: bv8, b1: bv8, b2: bv8, v: bv8)
    requires v <= 63
    ensures OnlyChanges(Word(b0, b1, b2), Word(b0, LowByte(b1, v, 4), HighByte(b2, v, 4)), 2, v)
  {
  }

  lemma StoreFourth(b0: bv8, b1: bv8, b2: bv8, b3: bv8, v: bv8)
    requires v <= 63
    ensures OnlyChanges(Word(b0, b1, b2), Word(b0, b1, LowByte(b2, v, 2)), 3, v) && HighByte(b3, v, 2) == b3
  {
  }

  /** The same store through one 16-bit word, as `Add` does it. */
  function Word16(b0: bv8, b1: bv8): bv16 {
    (b0 as bv16) | ((b1 as bv16) << 8)
  }

  function Extract16(w: bv16, fb: bv16): bv8
    requires fb <= 16
  {
    ((w >> fb) & 63) as bv8
  }

  function Store16(w: bv16, v: bv8, fb: bv16): bv16
    requires fb <= 16
  {
    (w & !(63 << fb)) | (((v & 63) as bv16) << fb)
  }

  lemma WordPathReads(b0: bv8, b1: bv8)
    ensures var w := Word16(b0, b1);
            && Extract16(w, 0) == Extract(b0, b1, 0) && Extract16(w, 6) == Extract(b0, b1, 6)
            && Extract16(w, 4) == Extract(b0, b1, 4) && Extract16(w, 2) == Extract(b0, b1, 2)
  {
  }

  lemma WordPathStoresZero(b0: bv8, b1: bv8, v: bv8)
    requires v <= 63
    ensures Store16(Word16(b0, b1), v, 0) == Word16(LowByte(b0, v, 0), HighByte(b1, v, 0))
  {
  }

  lemma WordPathStoresTwo(b0: bv8, b1: bv8, v: bv8)
    requires v <= 63
    ensures Store16(Word16(b0, b1), v, 2) == Word16(LowByte(b0, v, 2), HighByte(b1, v, 2))
  {
  }

  lemma WordPathStoresFour(b0: bv8, b1: bv8, v: bv8)
    requires v <= 63
    ensures Store16(Word16(b0, b1), v, 4) == Word16(LowByte(b0, v, 4), HighByte(b1, v, 4))
  {
  }

  lemma WordPathStoresSix(b0: bv8, b1: bv8, v: bv8)
    requires v <= 63
    ensures Store16(Word16(b0, b1), v, 6) == Word16(LowByte(b0, v, 6), HighByte(b1, v, 6))
  {
  }

  lemma Word16Splits(b0: bv8, b1: bv8)
    ensures (Word16(b0, b1) & 0xFF) as bv8 == b0 && (Word16(b0, b1) >> 8) as bv8 == b1
  {
  }

  /** The bytes after register `k` has been stored. */
  function Store(d: seq<bv8>, k: nat, v: bv8): (r: seq<bv8>)
    requires |d| >= SIZE && k < REGISTERS
    ensures |r| == |d|
  {
    Layout(k);
    var o, fb := ByteOffset(k), BitOffset(k) as bv8;
    d[o := LowByte(d[o], v, fb)][o + 1 := HighByte(d[o + 1], v, fb)]
  }

  lemma StoreInGroup(d: seq<bv8>, k: nat, v: bv8)
    requires |d| >= SIZE && k < REGISTERS && v <= 63
    ensures var g, d' := GroupStart(k), Store(d, k, v);
            && OnlyChanges(Word(d[g], d[g + 1], d[g + 2]), Word(d'[g], d'[g + 1], d'[g + 2]), k % 4, v)
            && forall i :: 0 <= i < |d| && !(g <= i <= g + 2) ==> d'[i] == d[i]
  {
    hide Word, LowByte, HighByte, OnlyChanges, GroupStart, ByteOffset, BitOffset;
    Layout(k);
    var g := GroupStart(k);
    StoreFirst(d[g], d[g + 1], d[g + 2], v);
    StoreSecond(d[g], d[g + 1], d[g + 2], v);
    StoreThird(d[g], d[g + 1], d[g + 2], v);
    StoreFourth(d[g], d[g + 1], d[g + 2], d[g + 3], v);
  }

  /** Storing a register updates that register, leaves its neighbours alone and touches no other byte. */
  lemma StoreUpdates(d: seq<bv8>, k: nat, v: bv8)
    requires |d| >= SIZE && k < REGISTERS && v <= 63
    ensures Registers(Store(d, k, v)) == Registers(d)[k := v]
    ensures forall i :: 0 <= i < |d| && !(HEADER <= i < DENSE_SIZE) ==> Store(d, k, v)[i] == d[i]
  {
    hide Store, Word, Pick;
    StoreInGroup(d, k, v);
    var d' := Store(d, k, v);
    assert k / 4 <= 4095;
    forall j | 0 <= j < REGISTERS ensures Reg(d', j) == Registers(d)[k := v][j] {
      if j / 4 == k / 4 {
        assert j == 4 * (j / 4) + j % 4 && k == 4 * (k / 4) + k % 4;
        assert j != k ==> j % 4 != k % 4;
      }
    }
  }

  // ---------------------------------------------------------------------------
  // What the registers mean.

  function Max(a: bv8, b: bv8): bv8 {
    if b > a then b else a
  }

  predicate Odd(x: bv64) { x & 1 == 1 }

  function Half(x: bv64): bv64 { x >> 1 }

  /** The number of zero bits below the lowest one, 64 when there is none. */
  function TrailingZeros(x: bv64, seen: nat): (r: nat)
    requires seen <= 64
    ensures seen <= r <= 64
    decreases 64 - seen
  {
    if seen == 64 || Odd(x) then seen else TrailingZeros(Half(x), seen + 1)
  }

  ghost predicate HasBit(x: bv64, n: nat) {
    if n == 0 then Odd(x) else HasBit(Half(x), n - 1)
  }

  lemma {:induction false} TrailingZerosAtMost(x: bv64, seen: nat, n: nat)
    requires HasBit(x, n) && seen + n <= 64
    ensures TrailingZeros(x, seen) <= seen + n
    decreases n
  {
    hide Odd, Half;
    if n > 0 && !Odd(x) {
      TrailingZerosAtMost(Half(x), seen + 1, n - 1);
    }
  }

  lemma HasBitAbove(x: bv64, y: bv64, n: nat)
    requires y == Half(Half(Half(Half(Half(Half(Half(Half(Half(Half(x))))))))))
    ensures HasBit(x, n + 10) <==> HasBit(y, n)
  {
    hide Odd, Half;
    var x4 := Half(Half(Half(Half(x))));
    var x8 := Half(Half(Half(Half(x4))));
    FourAbove(x, n + 6);
    FourAbove(x4, n + 2);
    assert HasBit(x8, n + 2) == HasBit(Half(x8), n + 1);
  }

  lemma FourAbove(x: bv64, n: nat)
    ensures HasBit(x, n + 4) <==> HasBit(Half(Half(Half(Half(x)))), n)
  {
    hide Odd, Half;
    assert HasBit(x, n + 4) == HasBit(Half(x), n + 3);
    assert HasBit(Half(x), n + 3) == HasBit(Half(Half(x)), n + 2);
    assert HasBit(Half(Half(x)), n + 2) == HasBit(Half(Half(Half(x))), n + 1);
  }

  lemma ShiftTen(x: bv64)
    ensures Half(Half(Half(Half(Half(Half(Half(Half(Half(Half(x)))))))))) == x >> 10
  {
  }

  lemma SentinelSet(h: bv64)
    ensures HasBit(h | 0x4000000000000, 50)
  {
    var x := h | 0x4000000000000;
    var x1 := x >> 10;
    var x2 := x1 >> 10;
    var x3 := x2 >> 10;
    var x4 := x3 >> 10;
    var x5 := x4 >> 10;
    assert Odd(x5);
    hide Odd, Half;
    ShiftTen(x);
    ShiftTen(x1);
    ShiftTen(x2);
    ShiftTen(x3);
    ShiftTen(x4);
    HasBitAbove(x4, x5, 0);
    HasBitAbove(x3, x4, 10);
    HasBitAbove(x2, x3, 20);
    HasBitAbove(x1, x2, 30);
    HasBitAbove(x, x1, 40);
  }

  /** The fourteen low bits of the hash choose the register. */
  function Index(hash: bv64): (k: nat)
    ensures k < REGISTERS
  {
    ((hash & 0x3FFF) as bv14) as int
  }

  lemma IndexIs(hash: bv64)
    ensures (Index(hash) as bv14) as bv64 == hash & 16383
  {
  }

  /** The other fifty, with a bit set above them, give the value to record. */
  function Count(hash: bv64): nat {
    TrailingZeros((hash >> 14) | 0x4000000000000, 0) + 1
  }

  lemma CountRange(hash: bv64)
    ensures 1 <= Count(hash) <= 51
  {
    SentinelSet(hash >> 14);
    TrailingZerosAtMost((hash >> 14) | 0x4000000000000, 0, 50);
  }

  /** No bit from `from` up to `to` is set. */
  ghost predicate Clear(x: bv64, from: nat, to: nat) {
    forall k :: from <= k < to ==> !HasBit(x, k)
  }

  lemma ClearStep(x: bv64, n: nat)
    requires n > 0
    ensures Clear(x, 0, n) <==> !Odd(x) && Clear(Half(x), 0, n - 1)
  {
    hide Odd, Half;
    if !Odd(x) && Clear(Half(x), 0, n - 1) {
      forall k | 0 <= k < n ensures !HasBit(x, k) { if k > 0 { assert !HasBit(Half(x), k - 1); } }
    }
    if Clear(x, 0, n) {
      LowestBit(x);
      forall k | 0 <= k < n - 1 ensures !HasBit(Half(x), k) { assert !HasBit(x, k + 1); }
    }
  }

  lemma LowestBit(x: bv64)
    ensures HasBit(x, 0) == Odd(x)
  {
  }

  /** The count of zero bits is the place of the lowest one. */
  lemma {:induction false} TrailingZerosIs(x: bv64, seen: nat, n: nat)
    requires seen + n < 64
    ensures TrailingZeros(x, seen) == seen + n <==> HasBit(x, n) && Clear(x, 0, n)
    decreases n
  {
    hide Odd, Half, Clear;
    if n == 0 {
      LowestBit(x);
      ClearNone(x);
    } else {
      ClearStep(x, n);
      if !Odd(x) { TrailingZerosIs(Half(x), seen + 1, n - 1); }
    }
  }

  lemma ClearNone(x: bv64)
    ensures Clear(x, 0, 0)
  {
  }

  lemma OrHalves(x: bv64, s: bv64)
    ensures Half(x | s) == Half(x) | Half(s) && Odd(x | s) == (Odd(x) || Odd(s))
  {
  }

  /** A bit of a union. */
  lemma {:induction false} HasBitOr(x: bv64, s: bv64, n: nat)
    ensures HasBit(x | s, n) <==> HasBit(x, n) || HasBit(s, n)
    decreases n
  {
    hide Odd, Half;
    OrHalves(x, s);
    if n > 0 { HasBitOr(Half(x), Half(s), n - 1); }
  }

  lemma TenZeros(s: bv64, m: nat)
    requires s & 0x3FF == 0 && m < 10
    ensures !HasBit(s, m)
  {
    EvenHalves(s);
    hide Odd, Half;
    var s4 := Half(Half(Half(Half(s))));
    var s8 := Half(Half(Half(Half(s4))));
    assert !HasBit(s4, 0) && !HasBit(s8, 0) && !HasBit(s, 0);
    if m >= 8 {
      FourAbove(s, m - 4);
      FourAbove(s4, m - 8);
      if m == 9 { assert HasBit(s8, 1) == HasBit(Half(s8), 0); }
    } else if m >= 4 {
      FourAbove(s, m - 4);
      FewZeros(s4, m - 4);
    } else {
      FewZeros(s, m);
    }
  }

  lemma EvenHalves(s: bv64)
    requires s & 0x3FF == 0
    ensures !Odd(s) && !Odd(Half(s)) && !Odd(Half(Half(s))) && !Odd(Half(Half(Half(s))))
    ensures var s4 := Half(Half(Half(Half(s))));
            !Odd(s4) && !Odd(Half(s4)) && !Odd(Half(Half(s4))) && !Odd(Half(Half(Half(s4))))
    ensures var s8 := Half(Half(Half(Half(Half(Half(Half(Half(s)))))))); !Odd(s8) && !Odd(Half(s8))
  {
  }

  lemma FewZeros(s: bv64, m: nat)
    requires m < 4 && !Odd(s) && !Odd(Half(s)) && !Odd(Half(Half(s))) && !Odd(Half(Half(Half(s))))
    ensures !HasBit(s, m)
  {
    hide Odd, Half;
    assert m >= 1 ==> HasBit(s, m) == HasBit(Half(s), m - 1);
    assert m >= 2 ==> HasBit(Half(s), m - 1) == HasBit(Half(Half(s)), m - 2);
    assert m >= 3 ==> HasBit(Half(Half(s)), m - 2) == HasBit(Half(Half(Half(s))), m - 3);
  }

  /** The bit set above the fifty has nothing below it. */
  lemma SentinelAlone(s: bv64, top: nat, m: nat)
    requires m < top && (top == 10 || top == 20 || top == 30 || top == 40 || top == 50)
    requires s == if top == 10 then 0x400 else if top == 20 then 0x100000 else if top == 30 then 0x40000000
                  else if top == 40 then 0x10000000000 else 0x4000000000000
    ensures !HasBit(s, m)
    decreases top
  {
    TenBelow(s);
    if m < 10 {
      TenZeros(s, m);
    } else {
      ShiftTen(s);
      hide Odd, Half;
      HasBitAbove(s, s >> 10, m - 10);
      SentinelAlone(s >> 10, top - 10, m - 10);
    }
  }

  lemma TenBelow(s: bv64)
    ensures s == 0x400 || s == 0x100000 || s == 0x40000000 || s == 0x10000000000 || s == 0x4000000000000 ==> s & 0x3FF == 0
    ensures 0x100000 as bv64 >> 10 == 0x400 && 0x40000000 as bv64 >> 10 == 0x100000
    ensures 0x10000000000 as bv64 >> 10 == 0x40000000 && 0x4000000000000 as bv64 >> 10 == 0x10000000000
  {
  }

  lemma ShiftFourteen(x: bv64)
    ensures Half(Half(Half(Half(x >> 10)))) == x >> 14
  {
  }

  lemma UpperBits(hash: bv64, n: nat)
    ensures HasBit(hash >> 14, n) <==> HasBit(hash, 14 + n)
  {
    ShiftTen(hash);
    ShiftFourteen(hash);
    hide Odd, Half;
    HasBitAbove(hash, hash >> 10, n + 4);
    FourAbove(hash >> 10, n);
  }

  lemma BitsAbove(hash: bv64, m: nat)
    requires m < 50
    ensures HasBit((hash >> 14) | 0x4000000000000, m) <==> HasBit(hash, 14 + m)
  {
    hide HasBit;
    HasBitOr(hash >> 14, 0x4000000000000, m);
    SentinelAlone(0x4000000000000, 50, m);
    UpperBits(hash, m);
  }

  lemma ClearAbove(hash: bv64, n: nat)
    requires n <= 50
    ensures Clear((hash >> 14) | 0x4000000000000, 0, n) <==> Clear(hash, 14, 14 + n)
  {
    hide HasBit;
    var x := (hash >> 14) | 0x4000000000000;
    if Clear(x, 0, n) {
      forall k | 14 <= k < 14 + n ensures !HasBit(hash, k) { BitsAbove(hash, k - 14); }
    }
    if Clear(hash, 14, 14 + n) {
      forall m | 0 <= m < n ensures !HasBit(x, m) { BitsAbove(hash, m); }
    }
  }

  /** The rank is one more than the place of the lowest bit set above the fourteen, 51 if there is none. */
  lemma CountIs(hash: bv64, n: nat)
    requires n <= 50
    ensures Count(hash) == n + 1 <==> (n == 50 || HasBit(hash, 14 + n)) && Clear(hash, 14, 14 + n)
  {
    hide HasBit, TrailingZeros, Clear;
    TrailingZerosIs((hash >> 14) | 0x4000000000000, 0, n);
    ClearAbove(hash, n);
    if n == 50 { SentinelSet(hash >> 14); } else { BitsAbove(hash, n); }
  }

  lemma SmallFits(n: nat)
    requires n <= 63
    ensures n as bv8 <= 63 && (n > 0 ==> n as bv8 > 0)
  {
  }

  /** What an element asks its register to be at least. */
  function Rank(hash: bv64): (r: bv8)
    ensures 0 < r <= 63
  {
    CountRange(hash);
    SmallFits(Count(hash));
    Count(hash) as bv8
  }

  function Recorded(rs: seq<bv8>, hash: bv64): (r: seq<bv8>)
    requires |rs| == REGISTERS
    ensures |r| == REGISTERS
  {
    rs[Index(hash) := Max(rs[Index(hash)], Rank(hash))]
  }

  /** Each register holds the greatest rank among the elements that fall on it, zero if none does. */
  ghost predicate IsSketch(rs: seq<bv8>, elems: set<Bytes>, hash: Bytes -> bv64) {
    && |rs| == REGISTERS
    && (forall e :: e in elems ==> Rank(hash(e)) <= rs[Index(hash(e))])
    && (forall k :: 0 <= k < REGISTERS ==> rs[k] == 0 || exists e :: e in elems && Index(hash(e)) == k && Rank(hash(e)) == rs[k])
  }

  /** So the registers are a function of the set of elements: neither order nor repetition shows. */
  lemma SketchUnique(rs: seq<bv8>, rs': seq<bv8>, elems: set<Bytes>, hash: Bytes -> bv64)
    requires IsSketch(rs, elems, hash) && IsSketch(rs', elems, hash)
    ensures rs == rs'
  {
    hide Index, Rank;
    forall k | 0 <= k < REGISTERS ensures rs[k] == rs'[k] {
      SketchBelow(rs, rs', elems, hash, k);
      SketchBelow(rs', rs, elems, hash, k);
    }
  }

  lemma SketchBelow(rs: seq<bv8>, rs': seq<bv8>, elems: set<Bytes>, hash: Bytes -> bv64, k: nat)
    requires IsSketch(rs, elems, hash) && IsSketch(rs', elems, hash) && k < REGISTERS
    ensures rs[k] <= rs'[k]
  {
    hide Index, Rank;
    if rs[k] != 0 {
      var e :| e in elems && Index(hash(e)) == k && Rank(hash(e)) == rs[k];
      assert Rank(hash(e)) <= rs'[Index(hash(e))];
    }
  }

  /** Recording an element adds it to the set. */
  lemma RecordAdds(rs: seq<bv8>, elems: set<Bytes>, hash: Bytes -> bv64, e: Bytes)
    requires IsSketch(rs, elems, hash)
    ensures IsSketch(Recorded(rs, hash(e)), elems + {e}, hash)
  {
    hide Index, Rank;
    var rs' := Recorded(rs, hash(e));
    forall k | 0 <= k < REGISTERS
      ensures rs'[k] == 0 || exists x :: x in elems + {e} && Index(hash(x)) == k && Rank(hash(x)) == rs'[k]
    {
      if rs'[k] == rs[k] {
        if rs[k] != 0 {
          var x :| x in elems && Index(hash(x)) == k && Rank(hash(x)) == rs[k];
          assert x in elems + {e};
        }
      } else {
        assert e in elems + {e};
      }
    }
  }

  function Merged(a: seq<bv8>, b: seq<bv8>): seq<bv8>
    requires |a| == |b| == REGISTERS
  {
    seq(REGISTERS, k requires 0 <= k < REGISTERS => Max(a[k], b[k]))
  }

  /** The pointwise maximum of two sketches is the sketch of the union. */
  lemma MergeIsUnion(a: seq<bv8>, b: seq<bv8>, s: set<Bytes>, t: set<Bytes>, hash: Bytes -> bv64)
    requires IsSketch(a, s, hash) && IsSketch(b, t, hash)
    ensures IsSketch(Merged(a, b), s + t, hash)
  {
    hide Index, Rank;
    var m := Merged(a, b);
    forall k | 0 <= k < REGISTERS
      ensures m[k] == 0 || exists x :: x in s + t && Index(hash(x)) == k && Rank(hash(x)) == m[k]
    {
      if m[k] != 0 {
        if m[k] == a[k] {
          var x :| x in s && Index(hash(x)) == k && Rank(hash(x)) == a[k];
          assert x in s + t;
        } else {
          var x :| x in t && Index(hash(x)) == k && Rank(hash(x)) == b[k];
          assert x in s + t;
        }
      }
    }
  }

  function RecordAll(rs: seq<bv8>, elems: seq<Bytes>, hash: Bytes -> bv64): seq<bv8>
    requires |rs| == REGISTERS
    decreases |elems|
  {
    if elems == [] then rs else RecordAll(Recorded(rs, hash(elems[0])), elems[1..], hash)
  }

  ghost function Elements(elems: seq<Bytes>): set<Bytes> {
    set e | e in elems
  }

  lemma {:induction false} RecordAllAdds(rs: seq<bv8>, s: set<Bytes>, elems: seq<Bytes>, hash: Bytes -> bv64)
    requires |rs| == REGISTERS && IsSketch(rs, s, hash)
    ensures IsSketch(RecordAll(rs, elems, hash), s + Elements(elems), hash)
    decreases |elems|
  {
    hide IsSketch, Recorded;
    if elems == [] {
      assert s + Elements(elems) == s;
    } else {
      RecordAdds(rs, s, hash, elems[0]);
      RecordAllAdds(Recorded(rs, hash(elems[0])), s + {elems[0]}, elems[1..], hash);
      assert elems == [elems[0]] + elems[1..];
      assert s + {elems[0]} + Elements(elems[1..]) == s + Elements(elems);
    }
  }

  /** Two runs of additions to the same sketch that add the same elements end in the same registers. */
  lemma OrderDoesNotMatter(rs: seq<bv8>, s: set<Bytes>, xs: seq<Bytes>, ys: seq<Bytes>, hash: Bytes -> bv64)
    requires |rs| == REGISTERS && IsSketch(rs, s, hash) && Elements(xs) == Elements(ys)
    ensures RecordAll(rs, xs, hash) == RecordAll(rs, ys, hash)
  {
    hide IsSketch, RecordAll;
    RecordAllAdds(rs, s, xs, hash);
    RecordAllAdds(rs, s, ys, hash);
    SketchUnique(RecordAll(rs, xs, hash), RecordAll(rs, ys, hash), s + Elements(xs), hash);
  }

  // ---------------------------------------------------------------------------
  // The histogram and the cached estimate.

  function Occurrences(rs: seq<bv8>, v: nat): nat {
    if rs == [] then 0
    else Occurrences(rs[..|rs| - 1], v) + if rs[|rs| - 1] as int == v then 1 else 0
  }

  /** How often each of the 64 register values occurs. */
  function Histogram(rs: seq<bv8>): seq<nat> {
    seq(64, v requires 0 <= v < 64 => Occurrences(rs, v))
  }

  function Cached(d: seq<bv8>): bv64
    requires |d| >= SIZE
  {
    LoadWord(d[8], d[9], d[10], d[11], d[12], d[13], d[14], d[15])
  }

  function LoadWord(b0: bv8, b1: bv8, b2: bv8, b3: bv8, b4: bv8, b5: bv8, b6: bv8, b7: bv8): bv64 {
    (b0 as bv64) | ((b1 as bv64) << 8) | ((b2 as bv64) << 16) | ((b3 as bv64) << 24) |
    ((b4 as bv64) << 32) | ((b5 as bv64) << 40) | ((b6 as bv64) << 48) | ((b7 as bv64) << 56)
  }

  type Estimate = x: bv64 | x < 0x8000000000000000 witness 0

  predicate Fresh(d: seq<bv8>)
    requires |d| >= SIZE
  {
    d[15] & 0x80 == 0
  }

  lemma WordReloads(x: Estimate)
    ensures (((x >> 56) & 0xFF) as bv8 & 0x7F) & 0x80 == 0
    ensures LoadWord((x & 0xFF) as bv8, ((x >> 8) & 0xFF) as bv8, ((x >> 16) & 0xFF) as bv8, ((x >> 24) & 0xFF) as bv8,
                     ((x >> 32) & 0xFF) as bv8, ((x >> 40) & 0xFF) as bv8, ((x >> 48) & 0xFF) as bv8,
                     ((x >> 56) & 0xFF) as bv8 & 0x7F) == x
  {
  }

  lemma FlagSet(b: bv8)
    ensures (b | 0x80) & 0x80 != 0
  {
  }

  lemma RegistersFrom(d: seq<bv8>, d': seq<bv8>)
    requires |d| >= SIZE && |d'| >= SIZE && d[HEADER..DENSE_SIZE] == d'[HEADER..DENSE_SIZE]
    ensures Registers(d) == Registers(d')
  {
    hide Word, Pick;
    forall k | 0 <= k < REGISTERS ensures Reg(d, k) == Reg(d', k) {
      var g := GroupStart(k);
      assert k / 4 <= 4095;
      assert d[g] == d[HEADER..DENSE_SIZE][g - HEADER] && d[g + 1] == d[HEADER..DENSE_SIZE][g + 1 - HEADER] &&
             d[g + 2] == d[HEADER..DENSE_SIZE][g + 2 - HEADER];
    }
  }

  /** The four registers in three bytes, as the histogram loop reads them. */
  function FourOf(x0: bv8, x1: bv8, x2: bv8): (f: seq<bv8>)
    ensures |f| == 4
  {
    var b0, b1, b2 := x0 as bv32, x1 as bv32, x2 as bv32;
    [(b0 & 0x3F) as bv8, (((b0 >> 6) | (b1 << 2)) & 0x3F) as bv8,
     (((b1 >> 4) | (b2 << 4)) & 0x3F) as bv8, ((b2 >> 2) & 0x3F) as bv8]
  }

  lemma FourArePicked(b0: bv8, b1: bv8, b2: bv8)
    ensures var w, f := Word(b0, b1, b2), FourOf(b0, b1, b2);
            f[0] == Pick(w, 0) && f[1] == Pick(w, 1) && f[2] == Pick(w, 2) && f[3] == Pick(w, 3)
  {
  }

  lemma RegisterOfGroup(d: seq<bv8>, q: nat, c: nat)
    requires |d| >= SIZE && q < 4096 && c < 4
    ensures Registers(d)[4 * q + c] == Pick(Word(d[HEADER + 3 * q], d[HEADER + 3 * q + 1], d[HEADER + 3 * q + 2]), c)
  {
    hide Word, Pick;
    assert (4 * q + c) / 4 == q && (4 * q + c) % 4 == c;
  }

  lemma FourAreRegisters(d: seq<bv8>, q: nat)
    requires |d| >= SIZE && q < 4096
    ensures var i := HEADER + 3 * q;
            FourOf(d[i], d[i + 1], d[i + 2]) == Registers(d)[4 * q..4 * q + 4]
  {
    hide Word, Pick, Registers, FourOf;
    var i := HEADER + 3 * q;
    FourArePicked(d[i], d[i + 1], d[i + 2]);
    RegisterOfGroup(d, q, 0);
    RegisterOfGroup(d, q, 1);
    RegisterOfGroup(d, q, 2);
    RegisterOfGroup(d, q, 3);
    FourElements(Registers(d), 4 * q, FourOf(d[i], d[i + 1], d[i + 2]));
  }

  lemma FourElements(rs: seq<bv8>, n: nat, f: seq<bv8>)
    requires |f| == 4 && n + 4 <= |rs| && rs[n] == f[0] && rs[n + 1] == f[1] && rs[n + 2] == f[2] && rs[n + 3] == f[3]
    ensures f == rs[n..n + 4]
  {
  }

  lemma SixBits(x: bv8)
    ensures x <= 63 ==> x & 63 == x
  {
  }

  lemma AsIndex(x: bv8)
    requires x <= 63
    ensures x as int < 64
  {
  }

  // ---------------------------------------------------------------------------
  // The sketch in memory.

  class HLL {
    const data: array<bv8>
    const estimate: seq<nat> -> Estimate

    /** A cached estimate is always the estimate for the registers as they are. */
    ghost predicate Valid()
      reads this, data
    {
      data.Length >= SIZE && (Fresh(data[..]) ==> Cached(data[..]) == estimate(Histogram(Registers(data[..]))))
    }

    ghost function Regs(): seq<bv8>
      requires data.Length >= SIZE
      reads this, data
    {
      Registers(data[..])
    }

    constructor (estimate: seq<nat> -> Estimate)
      ensures Valid() && fresh(data) && this.estimate == estimate && Regs() == seq(REGISTERS, _ => 0)
      ensures forall hash :: IsSketch(Regs(), {}, hash)
    {
      hide Cached, Histogram;
      data := new bv8[SIZE](_ => 0);
      this.estimate := estimate;
      new;
      data[0], data[1], data[2], data[3] := 72, 89, 76, 76;
      data[4] := 0;
      data[15] := 0x80;
      assert forall k :: 0 <= k < REGISTERS ==> Reg(data[..], k) == 0;
    }

    method GetRegister(k: nat) returns (r: bv8)
      requires data.Length >= SIZE && k < REGISTERS
      ensures r == Regs()[k]
    {
      Layout(k);
      var o, fb := ByteOffset(k), BitOffset(k) as bv32;
      var b1: bv8 := 0;
      if o + 1 < data.Length { b1 := data[o + 1]; }
      r := Extract(data[o], b1, fb);
      ghost var g := GroupStart(k);
      ExtractPicks(data[g], data[g + 1], data[g + 2], data[g + 3]);
      hide Word, Pick, Extract, GroupStart, ByteOffset, BitOffset;
    }

    method SetRegister(k: nat, val: bv8)
      requires data.Length >= SIZE && k < REGISTERS
      modifies data
      ensures Valid() && Regs() == old(Regs())[k := val & 63]
    {
      hide Word, Pick, Extract, GroupStart, ByteOffset, BitOffset, LowByte, HighByte, Cached, Histogram, Registers;
      Layout(k);
      ghost var d := data[..];
      var o, fb, v := ByteOffset(k), BitOffset(k) as bv8, val & 63;
      data[o] := LowByte(data[o], v, fb);
      if o + 1 < data.Length { data[o + 1] := HighByte(data[o + 1], v, fb); }
      assert data[..] == Store(d, k, v);
      StoreUpdates(d, k, v);
      Invalidate();
    }

    /** Marks the cached estimate as stale. */
    method Invalidate()
      requires data.Length >= SIZE
      modifies data
      ensures Valid() && Regs() == old(Regs()) && !Fresh(data[..])
    {
      hide Cached, Histogram, Registers;
      FlagSet(data[15]);
      data[15] := data[15] | 0x80;
      RegistersFrom(old(data[..]), data[..]);
    }

    /** True exactly when a register grew. */
    method Add(hash: bv64) returns (changed: bool)
      requires Valid()
      modifies data
      ensures Valid() && Regs() == Recorded(old(Regs()), hash) && (changed <==> Regs() != old(Regs()))
    {
      hide Word, Pick, GroupStart, Cached, Histogram, Registers, Store, Index, Rank;
      var k, count := Index(hash), Rank(hash);
      ghost var d := data[..];
      var current := ReadWord(k);
      if count > current {
        WriteWord(k, count);
        StoreUpdates(d, k, count);
        Invalidate();
        return true;
      }
      assert Regs() == Regs()[k := current];
      return false;
    }

    /** The 16-bit word path reads what GetRegister reads. */
    method ReadWord(k: nat) returns (r: bv8)
      requires data.Length >= SIZE && k < REGISTERS
      ensures r == Regs()[k]
    {
      Layout(k);
      var o, fb := ByteOffset(k), BitOffset(k) as bv16;
      r := Extract16(Word16(data[o], data[o + 1]), fb);
      ghost var g := GroupStart(k);
      WordPathReads(data[o], data[o + 1]);
      ExtractPicks(data[g], data[g + 1], data[g + 2], data[g + 3]);
      hide Word, Pick, Extract, Extract16, Word16, GroupStart, ByteOffset, BitOffset;
    }

    /** And writes what SetRegister writes. */
    method WriteWord(k: nat, v: bv8)
      requires data.Length >= SIZE && k < REGISTERS && v <= 63
      modifies data
      ensures data[..] == Store(old(data[..]), k, v)
    {
      hide Word, Pick, GroupStart, ByteOffset, BitOffset, Store16, Word16, LowByte, HighByte;
      Layout(k);
      var o, fb := ByteOffset(k), BitOffset(k) as bv16;
      var b0, b1 := data[o], data[o + 1];
      var w := Store16(Word16(b0, b1), v, fb);
      WordPathStoresZero(b0, b1, v);
      WordPathStoresTwo(b0, b1, v);
      WordPathStoresFour(b0, b1, v);
      WordPathStoresSix(b0, b1, v);
      ghost var fb8 := BitOffset(k) as bv8;
      Word16Splits(LowByte(b0, v, fb8), HighByte(b1, v, fb8));
      data[o], data[o + 1] := (w & 0xFF) as bv8, (w >> 8) as bv8;
    }

    method Merge(other: HLL)
      requires Valid() && other.Valid()
      modifies data
      ensures Valid() && Regs() == Merged(old(Regs()), old(other.Regs()))
    {
      hide Cached, Histogram, Registers;
      ghost var a, b := Regs(), other.Regs();
      var i := 0;
      while i < REGISTERS
        invariant 0 <= i <= REGISTERS && Valid() && |Regs()| == REGISTERS
        invariant other.Regs() == if other.data == data then Regs() else b
        invariant forall k :: 0 <= k < i ==> Regs()[k] == Max(a[k], b[k])
        invariant forall k :: i <= k < REGISTERS ==> Regs()[k] == a[k]
      {
        var rA := GetRegister(i);
        var rB := other.GetRegister(i);
        SixBits(rB);
        if rB > rA { SetRegister(i, rB); }
        i := i + 1;
      }
      Invalidate();
    }

    /** Counts one register into the histogram of those already counted. */
    static method Tally(hist: array<nat>, ghost counted: seq<bv8>, r: bv8)
      requires hist.Length == 64 && r <= 63 && forall v :: 0 <= v < 64 ==> hist[v] == Occurrences(counted, v)
      modifies hist
      ensures forall v :: 0 <= v < 64 ==> hist[v] == Occurrences(counted + [r], v)
    {
      AsIndex(r);
      var i := r as int;
      hist[i] := hist[i] + 1;
      assert (counted + [r])[..|counted|] == counted;
    }

    static method TallyFour(hist: array<nat>, ghost counted: seq<bv8>, four: seq<bv8>)
      requires |four| == 4 && forall k :: 0 <= k < 4 ==> four[k] <= 63
      requires hist.Length == 64 && forall v :: 0 <= v < 64 ==> hist[v] == Occurrences(counted, v)
      modifies hist
      ensures forall v :: 0 <= v < 64 ==> hist[v] == Occurrences(counted + four, v)
    {
      hide Occurrences;
      Tally(hist, counted, four[0]);
      Tally(hist, counted + [four[0]], four[1]);
      Tally(hist, counted + [four[0]] + [four[1]], four[2]);
      Tally(hist, counted + [four[0]] + [four[1]] + [four[2]], four[3]);
      assert counted + [four[0]] + [four[1]] + [four[2]] + [four[3]] == counted + four;
    }

    ghost predicate Counts(hist: array<nat>, n: nat)
      requires data.Length >= SIZE && n <= REGISTERS
      reads this, data, hist
    {
      hist.Length == 64 && forall v :: 0 <= v < 64 ==> hist[v] == Occurrences(Regs()[..n], v)
    }

    /** Three bytes of the sketch: the four registers from `4 * q` on. */
    method TallyGroup(hist: array<nat>, q: nat)
      requires data.Length >= SIZE && q < 4096 && Counts(hist, 4 * q)
      modifies hist
      ensures Counts(hist, 4 * (q + 1))
    {
      hide Registers, FourOf, Occurrences;
      var i := HEADER + 3 * q;
      FourAreRegisters(data[..], q);
      var four := FourOf(data[i], data[i + 1], data[i + 2]);
      ghost var rs := Regs();
      GroupBound(rs, q);
      TallyFour(hist, rs[..4 * q], four);
    }

    /** Eight registers, six bytes, at a time. */
    method Tallied() returns (histogram: seq<nat>)
      requires data.Length >= SIZE
      ensures histogram == Histogram(Regs())
    {
      hide Registers, Occurrences;
      var hist := new nat[64](_ => 0);
      NoOccurrences();
      var byteIdx, q := 0, 0;
      assert Regs()[..0] == [];
      while byteIdx < 12288
        invariant 0 <= q <= 4096 && byteIdx == 3 * q && q % 2 == 0 && fresh(hist) && Counts(hist, 4 * q)
      {
        TallyGroup(hist, q);
        TallyGroup(hist, q + 1);
        byteIdx, q := byteIdx + 6, q + 2;
      }
      assert Regs()[..4 * q] == Regs();
      histogram := hist[..];
    }

    /** The estimate for the registers as they are, from the cache or counted afresh. */
    method Count() returns (est: bv64)
      requires Valid()
      modifies data
      ensures Valid() && Regs() == old(Regs()) && est == estimate(Histogram(Regs())) && Fresh(data[..])
    {
      hide Registers, Histogram, LoadWord;
      if data[15] & 0x80 == 0 {
        return LoadWord(data[8], data[9], data[10], data[11], data[12], data[13], data[14], data[15]);
      }
      var histogram := Tallied();
      var x: Estimate := estimate(histogram);
      data[8], data[9], data[10], data[11] :=
        (x & 0xFF) as bv8, ((x >> 8) & 0xFF) as bv8, ((x >> 16) & 0xFF) as bv8, ((x >> 24) & 0xFF) as bv8;
      data[12], data[13], data[14], data[15] :=
        ((x >> 32) & 0xFF) as bv8, ((x >> 40) & 0xFF) as bv8, ((x >> 48) & 0xFF) as bv8, ((x >> 56) & 0xFF) as bv8;
      data[15] := data[15] & 0x7F;
      WordReloads(x);
      RegistersFrom(old(data[..]), data[..]);
      return x;
    }
  }

  lemma GroupBound(rs: seq<bv8>, q: nat)
    requires |rs| == REGISTERS && q < 4096
    ensures rs[..4 * q] + rs[4 * q..4 * q + 4] == rs[..4 * (q + 1)]
  {
  }

  lemma NoOccurrences()
    ensures forall v :: Occurrences([], v) == 0
  {
  }
}
