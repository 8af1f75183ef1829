/** The LZF codec used for strings in snapshots. */
module Lzf {
  import opened Base

  const HASH_SIZE: nat := 16384
  const MAX_OFF: nat := 8192
  const MAX_REF: nat := 264
  const MIN_LEN: nat := 20

  // ---------------------------------------------------------------------------
  // The format: what a compressed byte string means, independent of either loop.

  /** Append `n` bytes, each the one `off` back; the source may overlap what is written. */
  function BackCopy(acc: Bytes, off: nat, n: nat): (r: Bytes)
    requires 1 <= off <= |acc|
    ensures |r| == |acc| + n && acc <= r
    decreases n
  {
    if n == 0 then acc else BackCopy(acc + [acc[|acc| - off]], off, n - 1)
  }

  /** A back-reference token: match length, distance and encoded size. */
  datatype Ref = Ref(len: nat, off: nat, size: nat)

  function ReadRef(input: Bytes): (r: Option<Ref>)
    requires |input| > 0 && input[0] >= 32
    ensures r.Some? ==> 2 <= r.value.size <= |input| && r.value.len >= 3 && r.value.off >= 1
  {
    var len: int, high: int := input[0] / 32, input[0] % 32;
    if len < 7 then
      if |input| < 2 then None else Some(Ref(len + 2, high * 256 + input[1] + 1, 2))
    else
      if |input| < 3 then None else Some(Ref(len + input[1] + 2, high * 256 + input[2] + 1, 3))
  }

  /** One token applied: what is left of the input, and the longer output. */
  datatype Progress = Progress(rest: Bytes, acc: Bytes)

  function Step(input: Bytes, acc: Bytes): (r: Option<Progress>)
    requires |input| > 0
    ensures r.Some? ==> |r.value.rest| < |input| && acc <= r.value.acc
  {
    if input[0] < 32 then
      var n := input[0] + 1;
      if 1 + n > |input| then None
      else
        assert acc <= acc + input[1..1 + n];
        Some(Progress(input[1 + n..], acc + input[1..1 + n]))
    else
      var t := ReadRef(input);
      if t.None? || t.value.off > |acc| then None
      else Some(Progress(input[t.value.size..], BackCopy(acc, t.value.off, t.value.len)))
  }

  /** The bytes a compressed string stands for, appended to `acc`. */
  function Decode(input: Bytes, acc: Bytes): (r: Option<Bytes>)
    ensures r.Some? ==> acc <= r.value
    decreases |input|
  {
    if input == [] then Some(acc)
    else match Step(input, acc)
      case None => None
      case Some(p) => Decode(p.rest, p.acc)
  }

  lemma StepConcat(a: Bytes, b: Bytes, acc: Bytes)
    requires |a| > 0 && Step(a, acc).Some?
    ensures Step(a + b, acc) == Some(Progress(Step(a, acc).value.rest + b, Step(a, acc).value.acc))
  {
    if a[0] < 32 {
      hide ReadRef, BackCopy;
      var n := a[0] + 1;
      FrontPieces(a, b, 1, 1 + n);
    } else {
      var t := ReadRef(a).value;
      assert ReadRef(a + b) == Some(t);
      hide ReadRef, BackCopy;
      FrontPieces(a, b, 0, t.size);
    }
  }

  lemma FrontPieces(a: Bytes, b: Bytes, i: nat, j: nat)
    requires i <= j <= |a|
    ensures (a + b)[j..] == a[j..] + b && (a + b)[i..j] == a[i..j]
  {
  }

  lemma {:induction false} DecodeConcat(a: Bytes, b: Bytes, acc: Bytes)
    requires Decode(a, acc).Some?
    ensures Decode(a + b, acc) == Decode(b, Decode(a, acc).value)
    decreases |a|
  {
    hide Step;
    if a == [] {
      assert a + b == b;
    } else {
      var p := Step(a, acc).value;
      StepConcat(a, b, acc);
      DecodeConcat(p.rest, b, p.acc);
    }
  }

  lemma DecodeLiteral(lits: Bytes, acc: Bytes)
    requires 1 <= |lits| <= 32
    ensures Decode([|lits| - 1] + lits, acc) == Some(acc + lits)
  {
    var s: Bytes := [|lits| - 1] + lits;
    assert s[1..] == lits && s[1..1 + |lits|] == lits && s[1 + |lits|..] == [];
  }

  /** How a match of `len` bytes at distance `off + 1` is written. */
  function RefBytes(len: nat, off: nat): Bytes
    requires 3 <= len <= MAX_REF && off < MAX_OFF
  {
    if len - 2 < 7 then [off / 256 + (len - 2) * 32, off % 256]
    else [off / 256 + 7 * 32, len - 2 - 7, off % 256]
  }

  lemma DecodeRefBytes(len: nat, off: nat, acc: Bytes)
    requires 3 <= len <= MAX_REF && off < MAX_OFF && off < |acc|
    ensures Decode(RefBytes(len, off), acc) == Some(BackCopy(acc, off + 1, len))
  {
    hide BackCopy;
    var s := RefBytes(len, off);
    ReadRefBytes(len, off);
    assert s[|s|..] == [];
    assert Step(s, acc) == Some(Progress([], BackCopy(acc, off + 1, len)));
  }

  lemma ReadRefBytes(len: nat, off: nat)
    requires 3 <= len <= MAX_REF && off < MAX_OFF
    ensures var s := RefBytes(len, off); s[0] >= 32 && ReadRef(s) == Some(Ref(len, off + 1, |s|))
  {
  }

  /** The input from `ip` on repeats at distance `off` for `n` bytes. */
  ghost predicate Repeats(input: Bytes, ip: int, off: int, n: int) {
    && 1 <= off <= ip && 0 <= n && ip + n <= |input|
    && forall j :: ip <= j < ip + n ==> input[j] == input[j - off]
  }

  /** A run of input that repeats is exactly a back copy. */
  lemma {:induction false} RepeatIsBackCopy(input: Bytes, ip: nat, off: nat, n: nat)
    requires Repeats(input, ip, off, n)
    ensures BackCopy(input[..ip], off, n) == input[..ip + n]
    decreases n
  {
    if n > 0 {
      assert input[..ip] + [input[..ip][ip - off]] == input[..ip + 1];
      RepeatIsBackCopy(input, ip + 1, off, n - 1);
    }
  }

  // ---------------------------------------------------------------------------
  // Compressor.

  /** The hash of three bytes, in 32-bit arithmetic. */
  function Hash3(a: byte, b: byte, c: byte): (h: nat)
    ensures h < HASH_SIZE
  {
    var v: int := a * 65536 + b * 256 + c;
    (v * 16777619 % 0x1_0000_0000) / 262144 % HASH_SIZE
  }

  /** How far the input at `a` agrees with the input at `b`, up to `maxLen` bytes. */
  method FindMatchLen(input: Bytes, a: nat, b: nat, maxLen: nat) returns (matched: nat)
    requires b < a && a + maxLen <= |input|
    ensures matched <= maxLen && Repeats(input, a, a - b, matched)
    ensures matched < maxLen ==> input[a + matched] != input[b + matched]
  {
    matched := 0;
    while matched < maxLen && input[a + matched] == input[b + matched]
      invariant matched <= maxLen && Repeats(input, a, a - b, matched)
    {
      matched := matched + 1;
    }
  }

  /** The finished tokens in `o` stand for the input up to the open literal run, whose
      control byte is still unset and whose `lit` bytes are in place. */
  ghost predicate Pending(input: Bytes, o: Bytes, ip: int, op: int, lit: int) {
    lit < 32 && Open(input, o, ip, op, lit)
  }

  /** The output so far stands for the input up to the last `lit` bytes, which lie open at its end. */
  ghost predicate Open(input: Bytes, o: Bytes, ip: int, op: int, lit: int) {
    && 0 <= lit <= 32 && lit <= ip <= |input| && lit + 1 <= op <= |o|
    && Decode(o[..op - lit - 1], []) == Some(input[..ip - lit])
    && o[op - lit..op] == input[ip - lit..ip]
  }

  lemma OpenGrows(input: Bytes, o: Bytes, ip: int, op: int, lit: int)
    requires Pending(input, o, ip, op, lit) && ip < |input| && op < |o|
    ensures Open(input, o[op := input[ip]], ip + 1, op + 1, lit + 1)
  {
    hide Decode;
    var o' := o[op := input[ip]];
    assert o'[..op - lit - 1] == o[..op - lit - 1];
    assert o'[op - lit..op + 1] == o[op - lit..op] + [input[ip]] == input[ip - lit..ip + 1];
  }

  lemma NothingYet(input: Bytes, o: Bytes)
    requires |o| > 0
    ensures Pending(input, o, 0, 1, 0)
  {
    assert o[..0] == [] == input[..0];
  }

  /** Append one token to finished output. */
  lemma TokenAppended(o: Bytes, p: nat, token: Bytes, acc: Bytes, acc': Bytes)
    requires p + |token| <= |o| && o[p..p + |token|] == token
    requires Decode(o[..p], []) == Some(acc) && Decode(token, acc) == Some(acc')
    ensures Decode(o[..p + |token|], []) == Some(acc')
  {
    hide Decode;
    assert o[..p + |token|] == o[..p] + token;
    DecodeConcat(o[..p], token, []);
  }

  /** Filling in the control byte turns the open run into a token. */
  lemma RunClosed(input: Bytes, o: Bytes, o': Bytes, ip: int, op: int, lit: int)
    requires 1 <= lit <= 32 && lit <= ip <= |input| && lit + 1 <= op <= |o| == |o'|
    requires Decode(o[..op - lit - 1], []) == Some(input[..ip - lit])
    requires o[op - lit..op] == input[ip - lit..ip]
    requires o' == o[op - lit - 1 := lit - 1]
    ensures Decode(o'[..op], []) == Some(input[..ip])
  {
    hide Decode;
    var p, lits := op - lit - 1, input[ip - lit..ip];
    assert o'[..p] == o[..p];
    assert o'[p..p + 1 + lit] == [lit - 1] + lits;
    DecodeLiteral(lits, input[..ip - lit]);
    assert input[..ip - lit] + lits == input[..ip];
    TokenAppended(o', p, [lit - 1] + lits, input[..ip - lit], input[..ip]);
  }

  /** Finish the open run, or take back the reserved control byte. */
  method CloseRun(ghost input: Bytes, out: array<byte>, ghost ip: int, op: int, lit: int) returns (op': int)
    requires Pending(input, out[..], ip, op, lit)
    modifies out
    ensures op' == (if lit > 0 then op else op - 1) && op' >= 0
    ensures Decode(out[..op'], []) == Some(input[..ip])
  {
    if lit > 0 {
      ghost var o := out[..];
      out[op - lit - 1] := lit - 1;
      RunClosed(input, o, out[..], ip, op, lit);
      assert out[..][..op] == out[..op];
      return op;
    }
    assert out[..][..op - 1] == out[..op - 1];
    return op - 1;
  }

  /** Copy one byte into the open run, closing it when it reaches 32 bytes. */
  method PutLiteral(input: Bytes, out: array<byte>, ip: int, op: int, lit: int) returns (op': int, lit': int)
    requires Pending(input, out[..], ip, op, lit) && ip < |input| && op + 1 < out.Length
    modifies out
    ensures op < op' <= op + 2 && (lit < 31 ==> op' == op + 1 && lit' == lit + 1)
    ensures Pending(input, out[..], ip + 1, op', lit')
  {
    hide Decode;
    OpenGrows(input, out[..], ip, op, lit);
    assert 0 <= ip && 0 <= op;
    hide Open;
    ghost var o := out[..][op := input[ip]];
    out[op] := input[ip];
    assert out[..] == o;
    op', lit' := op + 1, lit + 1;
    if lit' == 32 {
      OpenFull(input, o, ip + 1, op');
      out[op' - 32 - 1] := 31;
      RunClosed(input, o, out[..], ip + 1, op', 32);
      RunRestarts(input, out[..], ip + 1, op');
      lit', op' := 0, op' + 1;
    }
  }

  lemma OpenFull(input: Bytes, o: Bytes, ip: int, op: int)
    requires Open(input, o, ip, op, 32)
    ensures 32 <= ip <= |input| && 33 <= op <= |o|
    ensures Decode(o[..op - 33], []) == Some(input[..ip - 32]) && o[op - 32..op] == input[ip - 32..ip]
  {
  }

  lemma RunRestarts(input: Bytes, o: Bytes, ip: int, op: int)
    requires 0 <= ip <= |input| && 0 <= op < |o| && Decode(o[..op], []) == Some(input[..ip])
    ensures Open(input, o, ip, op + 1, 0)
  {
    hide Decode;
  }

  /** Write a back-reference. */
  method PutRef(out: array<byte>, op: int, len: nat, off: nat) returns (op': int)
    requires 3 <= len <= MAX_REF && off < MAX_OFF && 0 <= op && op + 3 <= out.Length
    modifies out
    ensures op' == op + |RefBytes(len, off)| <= op + 3
    ensures out[..op] == old(out[..op]) && out[op..op'] == RefBytes(len, off)
  {
    op' := op;
    if len - 2 < 7 {
      out[op'] := off / 256 + (len - 2) * 32;
      op' := op' + 1;
    } else {
      out[op'] := off / 256 + 7 * 32;
      op' := op' + 1;
      out[op'] := len - 2 - 7;
      op' := op' + 1;
    }
    out[op'] := off % 256;
    op' := op' + 1;
  }

  /** Finish the run, write the reference and reserve the next control byte. */
  method PutMatch(input: Bytes, out: array<byte>, ip: int, op: int, lit: int, ref: int, len: nat) returns (op': int)
    requires Pending(input, out[..], ip, op, lit) && op + 4 <= out.Length
    requires 0 <= ref < ip && ip - ref - 1 < MAX_OFF && 3 <= len <= MAX_REF && Repeats(input, ip, ip - ref, len)
    modifies out
    ensures op <= op' <= op + 4 && (lit == 0 ==> op' <= op + 3)
    ensures Pending(input, out[..], ip + len, op', 0)
  {
    hide Decode, RefBytes, Repeats;
    var off := ip - ref - 1;
    var p := CloseRun(input, out, ip, op, lit);
    op' := PutRef(out, p, len, off);
    ghost var o := out[..];
    assert o[..p] == out[..p] && o[p..op'] == RefBytes(len, off);
    RefAppended(input, o, p, ip, off, len);
    op' := op' + 1;
  }

  lemma RefAppended(input: Bytes, o: Bytes, p: nat, ip: nat, off: nat, len: nat)
    requires 3 <= len <= MAX_REF && off < MAX_OFF && off < ip && Repeats(input, ip, off + 1, len)
    requires ip <= |input| && p + |RefBytes(len, off)| <= |o| && o[p..p + |RefBytes(len, off)|] == RefBytes(len, off)
    requires Decode(o[..p], []) == Some(input[..ip])
    ensures ip + len <= |input| && Decode(o[..p + |RefBytes(len, off)|], []) == Some(input[..ip + len])
  {
    hide Decode, RefBytes, BackCopy;
    RepeatIsBackCopy(input, ip, off + 1, len);
    DecodeRefBytes(len, off, input[..ip]);
    TokenAppended(o, p, RefBytes(len, off), input[..ip], input[..ip + len]);
  }

  /** A position whose three bytes recur at `ip`, near enough to be referred to. */
  ghost predicate Usable(input: Bytes, ip: int, ref: int)
    requires 0 <= ip < |input| - 2
  {
    0 <= ref < ip && ip - ref - 1 < MAX_OFF && Repeats(input, ip, ip - ref, 3)
  }

  /** Look up and replace the last position with this hash; -1 unless it is a usable match. */
  method Lookup(htab: array<int>, input: Bytes, ip: int) returns (ref: int)
    requires htab.Length == HASH_SIZE && 0 <= ip < |input| - 2
    requires forall h :: 0 <= h < HASH_SIZE ==> -1 <= htab[h] < ip
    modifies htab
    ensures forall h :: 0 <= h < HASH_SIZE ==> -1 <= htab[h] <= ip
    ensures var h := Hash3(input[ip], input[ip + 1], input[ip + 2]);
            htab[h] == ip && (ref == -1 || ref == old(htab[h])) && (Usable(input, ip, old(htab[h])) ==> ref == old(htab[h]))
    ensures ref == -1 || (0 <= ref < ip && ip - ref - 1 < MAX_OFF && Repeats(input, ip, ip - ref, 3))
  {
    hide Hash3;
    var h := Hash3(input[ip], input[ip + 1], input[ip + 2]);
    ref := htab[h];
    htab[h] := ip;
    if !(ref >= 0 && ip - ref - 1 < MAX_OFF && input[ref] == input[ip] && input[ref + 1] == input[ip + 1]
         && input[ref + 2] == input[ip + 2])
    {
      ref := -1;
    }
  }

  method MatchLen(input: Bytes, ip: int, ref: int) returns (len: nat)
    requires 0 <= ref < ip < |input| - 2 && Repeats(input, ip, ip - ref, 3)
    ensures 3 <= len <= MAX_REF && Repeats(input, ip, ip - ref, len)
    ensures len < MAX_REF && ip + len < |input| ==> input[ip + len] != input[ref + len]
  {
    var maxMatch := if |input| - ip > MAX_REF then MAX_REF else |input| - ip;
    var matched := FindMatchLen(input, ip + 3, ref + 3, maxMatch - 3);
    len := 3 + matched;
  }

  ghost predicate Uniform(s: Bytes) {
    forall k :: 0 <= k < |s| ==> s[k] == s[0]
  }

  /** How far the output has got on a uniform input of length `n`, the last such position being `last`. */
  ghost predicate Gaining(n: int, ip: int, op: int, lit: int, last: int) {
    && ip < n - 2
    && ((ip == 0 && op == 1 && lit == 0 && last == -1)
        || (ip == 1 && op == 2 && lit == 1 && last == 0)
        || (265 <= ip && lit == 0 && ip - MAX_REF <= last < ip && 88 * (op - 6) <= ip - 265))
  }

  /** Where the last step on a uniform input leaves the output. */
  ghost predicate Gained(n: int, ip: int, op: int) {
    n - 2 <= ip && 88 * (op - 9 - 2 * (ip - (n - 2))) <= n
  }

  lemma GainStarts(n: int)
    requires n >= MIN_LEN
    ensures Gaining(n, 0, 1, 0, -1)
  {
  }

  /** On a uniform input every position hashes alike, and the last one seen can be referred to. */
  lemma UniformUsable(input: Bytes, ip: int, op: int, lit: int, last: int)
    requires 0 <= ip < |input| - 2 && (Uniform(input) ==> Gaining(|input|, ip, op, lit, last))
    ensures Uniform(input) ==> Hash3(input[ip], input[ip + 1], input[ip + 2]) == Hash3(input[0], input[0], input[0])
    ensures Uniform(input) ==> (last == -1 && ip == 0) || Usable(input, ip, last)
  {
    hide Hash3;
  }

  /** A match on a uniform input is as long as it can be, and what it costs is made up for. */
  lemma UniformMatch(input: Bytes, ip: int, op: int, lit: int, last: int, len: int, op': int)
    requires |input| >= MIN_LEN && 0 <= last < ip < |input| - 2
    requires 3 <= len <= MAX_REF && Repeats(input, ip, ip - last, len)
    requires len < MAX_REF && ip + len < |input| ==> input[ip + len] != input[last + len]
    requires op' <= op + 4 && (lit == 0 ==> op' <= op + 3)
    ensures Uniform(input) && Gaining(|input|, ip, op, lit, last) ==>
              if ip + len >= |input| - 2 then Gained(|input|, ip + len, op') else Gaining(|input|, ip + len, op', 0, ip) && op' < |input|
  {
    if Uniform(input) && ip + len < |input| {
      assert input[ip + len] == input[0];
      assert input[last + len] == input[0];
    }
  }

  lemma UniformLiteral(n: int, ip: int, op: int, lit: int, op': int, lit': int)
    requires n >= MIN_LEN && (lit < 31 ==> op' == op + 1 && lit' == lit + 1)
    ensures Gaining(n, ip, op, lit, -1) ==> Gaining(n, ip + 1, op', lit', ip) && op' < n
  {
  }

  lemma GainEnds(n: int, ip: int, op: int, lit: int, last: int)
    ensures ip >= n - 2 ==> !Gaining(n, ip, op, lit, last)
  {
  }

  lemma GainTail(n: int, ip: int, op: int, op': int)
    requires op' <= op + 2
    ensures Gained(n, ip, op) ==> Gained(n, ip + 1, op')
  {
  }

  lemma GainEnough(n: int, op: int)
    requires n >= MIN_LEN
    ensures Gained(n, n, op) ==> op < n
  {
  }

  /** One round of the main loop: a match is referred to, any other byte joins the open run. */
  method Round(input: Bytes, htab: array<int>, out: array<byte>, ip: int, op: int, lit: int)
      returns (ip': int, op': int, lit': int, matched: bool)
    requires htab.Length == HASH_SIZE && MIN_LEN <= |input| && 0 <= ip < |input| - 2 && op + 4 <= out.Length
    requires Pending(input, out[..], ip, op, lit)
    requires forall h :: 0 <= h < HASH_SIZE ==> -1 <= htab[h] < ip
    requires Uniform(input) ==> Gaining(|input|, ip, op, lit, htab[Hash3(input[0], input[0], input[0])])
    modifies htab, out
    ensures ip < ip' <= |input| && op <= op' <= op + 4 && (ip' == ip + 1 ==> op' <= op + 2)
    ensures Pending(input, out[..], ip', op', lit')
    ensures forall h :: 0 <= h < HASH_SIZE ==> -1 <= htab[h] < ip'
    ensures Uniform(input) ==>
              if ip' >= |input| - 2 then matched && Gained(|input|, ip', op')
              else Gaining(|input|, ip', op', lit', htab[Hash3(input[0], input[0], input[0])]) && op' < |input|
  {
    hide Decode, Repeats, Open, Gaining, Gained, Hash3, Uniform, Usable;
    ghost var home := Hash3(input[0], input[0], input[0]);
    ghost var o, last := out[..], htab[home];
    UniformUsable(input, ip, op, lit, last);
    var ref := Lookup(htab, input, ip);
    assert out[..] == o;
    if ref >= 0 {
      var len := MatchLen(input, ip, ref);
      op' := PutMatch(input, out, ip, op, lit, ref, len);
      UniformMatch(input, ip, op, lit, ref, len, op');
      MatchInside(input, ip, ref, len);
      ip', lit', matched := ip + len, 0, true;
    } else {
      op', lit' := PutLiteral(input, out, ip, op, lit);
      UniformLiteral(|input|, ip, op, lit, op', lit');
      ip', matched := ip + 1, false;
    }
  }

  lemma MatchInside(input: Bytes, ip: int, ref: int, len: int)
    requires Repeats(input, ip, ip - ref, len)
    ensures ip + len <= |input|
  {
  }

  /** Compress, or report that nothing was gained. */
  method Compress(input: Bytes) returns (result: Option<Bytes>)
    ensures result.Some? ==> |result.value| < |input|
    ensures result.Some? ==> Decode(result.value, []) == Some(input)
    ensures |input| < MIN_LEN ==> result == None
    ensures |input| >= MIN_LEN && Uniform(input) ==> result.Some?
  {
    hide Decode, Pending, Gaining, Gained, Hash3, Uniform;
    var inLen := |input|;
    if inLen < MIN_LEN { return None; }
    var htab := new int[HASH_SIZE](_ => -1);
    var out := new byte[inLen + 32](_ => 0);
    var ip, op, lit := 0, 1, 0;
    NothingYet(input, out[..]);
    GainStarts(inLen);
    while ip < inLen - 2
      invariant 0 <= ip <= inLen && op < inLen
      invariant Pending(input, out[..], ip, op, lit)
      invariant forall h :: 0 <= h < HASH_SIZE ==> -1 <= htab[h] < ip
      invariant Uniform(input) ==> Gaining(inLen, ip, op, lit, htab[Hash3(input[0], input[0], input[0])])
      decreases inLen - ip
    {
      var matched;
      ip, op, lit, matched := Round(input, htab, out, ip, op, lit);
      if matched && ip >= inLen - 2 { break; }
      if op >= inLen { return None; }
    }
    GainEnds(inLen, ip, op, lit, htab[Hash3(input[0], input[0], input[0])]);
    op, lit := Rest(input, out, ip, op, lit);
    op := CloseRun(input, out, inLen, op, lit);
    assert input[..inLen] == input;
    if op >= inLen { return None; }
    return Some(out[..op]);
  }

  /** The last bytes join the open run. */
  method Rest(input: Bytes, out: array<byte>, ip: int, op: int, lit: int) returns (op': int, lit': int)
    requires |input| >= MIN_LEN && |input| - 2 <= ip <= |input| && op <= |input| + 3 && out.Length == |input| + 32
    requires Pending(input, out[..], ip, op, lit)
    modifies out
    ensures Pending(input, out[..], |input|, op', lit')
    ensures Gained(|input|, ip, op) ==> op' < |input|
  {
    hide Decode, Pending, Gained;
    var i := ip;
    op', lit' := op, lit;
    while i < |input|
      invariant ip <= i <= |input| && op' <= op + 2 * (i - ip)
      invariant Pending(input, out[..], i, op', lit')
      invariant Gained(|input|, ip, op) ==> Gained(|input|, i, op')
    {
      ghost var before := op';
      op', lit' := PutLiteral(input, out, i, op', lit');
      GainTail(|input|, i, before, op');
      i := i + 1;
    }
    GainEnough(|input|, op');
  }

  // ---------------------------------------------------------------------------
  // Decompressor.

  /** Copy a back-reference inside the output buffer. */
  method CopyBack(out: array<byte>, op: nat, off: nat, n: nat)
    requires 1 <= off <= op && op + n <= out.Length
    modifies out
    ensures out[..op + n] == BackCopy(old(out[..op]), off, n)
  {
    var i := 0;
    assert out[..op + i] == out[..op];
    while i < n
      invariant 0 <= i <= n
      invariant BackCopy(out[..op + i], off, n - i) == BackCopy(old(out[..op]), off, n)
    {
      ghost var acc := out[..op + i];
      out[op + i] := out[op - off + i];
      i := i + 1;
      assert out[..op + i] == acc + [acc[|acc| - off]];
    }
  }

  method CopyChunk(out: array<byte>, op: nat, input: Bytes, ip: nat, n: nat)
    requires op + n <= out.Length && ip + n <= |input|
    modifies out
    ensures out[..op + n] == old(out[..op]) + input[ip..ip + n]
  {
    forall k | 0 <= k < n { out[op + k] := input[ip + k]; }
  }

  lemma DecodeLiteralStep(input: Bytes, ip: nat, acc: Bytes)
    requires ip < |input| && input[ip] < 32
    ensures var n := input[ip] + 1;
            Decode(input[ip..], acc) ==
            if ip + 1 + n > |input| then None
            else Decode(input[ip + 1 + n..], acc + input[ip + 1..ip + 1 + n])
  {
    hide ReadRef, BackCopy;
    var n := input[ip] + 1;
    if ip + 1 + n <= |input| { Pieces(input, ip, 1, 1 + n); }
  }

  lemma Pieces(input: Bytes, ip: nat, i: nat, j: nat)
    requires i <= j && ip + j <= |input|
    ensures input[ip..][j..] == input[ip + j..] && input[ip..][i..j] == input[ip + i..ip + j]
  {
  }

  lemma DecodeRefStep(input: Bytes, ip: nat, acc: Bytes)
    requires ip < |input| && input[ip] >= 32
    ensures var t := ReadRef(input[ip..]);
            Decode(input[ip..], acc) ==
            if t.None? || t.value.off > |acc| then None
            else Decode(input[ip + t.value.size..], BackCopy(acc, t.value.off, t.value.len))
  {
    hide ReadRef, BackCopy;
    var rest, t := input[ip..], ReadRef(input[ip..]);
    if t.Some? { assert rest[t.value.size..] == input[ip + t.value.size..]; }
  }

  /** Exactly the format's meaning, when it has one of the expected length. */
  method Decompress(input: Bytes, expectedLen: nat) returns (result: Option<Bytes>)
    ensures result == if Decode(input, []).Some? && |Decode(input, []).value| == expectedLen
                      then Decode(input, []) else None
  {
    hide BackCopy, ReadRef, Decode;
    var out := new byte[expectedLen](_ => 0);
    var ip, op := 0, 0;
    assert input[0..] == input && out[..0] == [];
    while ip < |input|
      invariant 0 <= ip <= |input| && 0 <= op <= expectedLen
      invariant Decode(input[ip..], out[..op]) == Decode(input, [])
      decreases |input| - ip
    {
      if input[ip] < 32 {
        var n := input[ip] + 1;
        DecodeLiteralStep(input, ip, out[..op]);
        if ip + 1 + n > |input| || op + n > expectedLen { return None; }
        CopyChunk(out, op, input, ip + 1, n);
        ip, op := ip + 1 + n, op + n;
      } else {
        var t := ReadRef(input[ip..]);
        DecodeRefStep(input, ip, out[..op]);
        if t.None? || op - t.value.off < 0 || op + t.value.len > expectedLen { return None; }
        CopyBack(out, op, t.value.off, t.value.len);
        ip, op := ip + t.value.size, op + t.value.len;
      }
    }
    assert input[ip..] == [] && out[..op] <= out[..];
    DecodeNothing(out[..op]);
    if op != expectedLen { return None; }
    assert out[..op] == out[..];
    return Some(out[..]);
  }

  lemma DecodeNothing(acc: Bytes)
    ensures Decode([], acc) == Some(acc)
  {
  }

  /** Whatever the hash table proposes and however matches overlap, decompression undoes
      compression, and compression never grows its input. */
  method RoundTrip(input: Bytes) returns (compressed: Option<Bytes>, back: Option<Bytes>)
    ensures compressed.Some? ==> |compressed.value| < |input| && back == Some(input)
  {
    compressed := Compress(input);
    back := None;
    if compressed.Some? { back := Decompress(compressed.value, |input|); }
  }
}
