/** Commands as they are logged and replicated, and the request parser that reads them back. */
module Resp {
  import opened Base
  import opened Decimal

  const STAR: byte := 42
  const DOLLAR: byte := 36
  const CR: byte := 13
  const LF: byte := 10
  const CRLF: Bytes := [13, 10]

  const MAX_ARGS: nat := 1024 * 1024
  const MAX_BULK: nat := 512 * 1024 * 1024

  type Command = seq<Bytes>

  // ---------------------------------------------------------------------------
  // Encoding.

  function Header(mark: byte, n: nat): Bytes {
    [mark] + Digits(n) + CRLF
  }

  function EncodeArg(a: Bytes): Bytes {
    Header(DOLLAR, |a|) + a + CRLF
  }

  function EncodeArgs(args: seq<Bytes>): Bytes {
    if args == [] then [] else EncodeArg(args[0]) + EncodeArgs(args[1..])
  }

  function EncodeCommand(argv: Command): Bytes {
    Header(STAR, |argv|) + EncodeArgs(argv)
  }

  function EncodeAll(cmds: seq<Command>): Bytes {
    if cmds == [] then [] else EncodeCommand(cmds[0]) + EncodeAll(cmds[1..])
  }

  // ---------------------------------------------------------------------------
  // What the parser makes of the bytes at hand.

  /** A line up to its line feed, with the line ending stripped. */
  datatype Line = Line(text: Bytes, size: nat)

  function FindLf(s: Bytes): (i: nat)
    ensures i <= |s| && (i < |s| ==> s[i] == LF) && forall k :: 0 <= k < i ==> s[k] != LF
  {
    if s == [] || s[0] == LF then 0 else 1 + FindLf(s[1..])
  }

  function ReadLine(s: Bytes): (r: Option<Line>)
    ensures r.Some? ==> 1 <= r.value.size <= |s|
  {
    var i := FindLf(s);
    if i == |s| then None
    else Some(Line(if i > 0 && s[i - 1] == CR then s[..i - 1] else s[..i], i + 1))
  }

  /** `Eof` when the bytes run out in or before a header line, `Truncated` when they run out in an argument. */
  datatype Outcome = Ok(args: seq<Bytes>, size: nat) | Eof | Truncated | Invalid

  /** The number in a header line, when it is one. */
  function HeaderNumber(text: Bytes, mark: byte): Option<int> {
    if |text| < 2 || text[0] != mark then None else ParseInt(text[1..])
  }

  /** One argument with the bytes it took, or how the request ends in it. */
  datatype ArgOutcome = Arg(data: Bytes, width: nat) | Stop(outcome: Outcome)

  function ParseArg(s: Bytes): (r: ArgOutcome)
    ensures r.Arg? ==> 1 <= r.width <= |s|
    ensures r.Stop? ==> !r.outcome.Ok?
  {
    match ReadLine(s)
    case None => Stop(Eof)
    case Some(line) =>
      var len := HeaderNumber(line.text, DOLLAR);
      if len.None? || len.value < 0 || len.value > MAX_BULK then Stop(Invalid)
      else
        var end := line.size + len.value;
        if |s| < end + 2 then Stop(Truncated)
        else if s[end] != CR || s[end + 1] != LF then Stop(Invalid)
        else Arg(s[line.size..end], end + 2)
  }

  /** What the arguments after the first add to the first. */
  function Prepend(a: Bytes, size: nat, r: Outcome): Outcome {
    match r
    case Ok(args, more) => Ok([a] + args, size + more)
    case other => other
  }

  function ParseArgs(s: Bytes, n: nat): (r: Outcome)
    ensures r.Ok? ==> r.size <= |s| && |r.args| == n
    decreases n
  {
    if n == 0 then Ok([], 0)
    else match ParseArg(s)
      case Stop(outcome) => outcome
      case Arg(data, width) => Prepend(data, width, ParseArgs(s[width..], n - 1))
  }

  function ParseMultiBulk(s: Bytes): (r: Outcome)
    ensures r.Ok? ==> 1 <= r.size <= |s|
  {
    match ReadLine(s)
    case None => Eof
    case Some(line) =>
      var argc := HeaderNumber(line.text, STAR);
      if argc.None? || argc.value <= 0 || argc.value > MAX_ARGS then Invalid
      else match ParseArgs(s[line.size..], argc.value)
        case Ok(args, size) => Ok(args, line.size + size)
        case other => other
  }

  // ---------------------------------------------------------------------------
  // Round trip, and what a cut does.

  /** A complete header is one line. */
  lemma HeaderReads(mark: byte, n: nat, rest: Bytes)
    requires mark != LF && n <= MAX_INT64
    ensures ReadLine(Header(mark, n) + rest) == Some(Line([mark] + Digits(n), |Header(mark, n)|))
    ensures HeaderNumber([mark] + Digits(n), mark) == Some(n)
  {
    var d := Digits(n);
    var s := Header(mark, n) + rest;
    var i := |d| + 2;
    assert s[0] == mark && s[i - 1] == CR && s[i] == LF;
    forall k | 0 <= k < i ensures s[k] != LF { if 1 <= k <= |d| { assert s[k] == d[k - 1]; } }
    assert FindLf(s) == i;
    assert s[..i - 1] == [mark] + d;
    ParseFormat(n);
    assert ([mark] + d)[1..] == d;
  }

  /** A cut header is no line at all. */
  lemma HeaderCut(mark: byte, n: nat, k: nat)
    requires mark != LF && k < |Header(mark, n)|
    ensures ReadLine(Header(mark, n)[..k]) == None
  {
    var d := Digits(n);
    var h := Header(mark, n);
    forall j | 0 <= j < k ensures h[j] != LF { if 1 <= j <= |d| { assert h[j] == d[j - 1]; } }
    assert forall j :: 0 <= j < k ==> h[..k][j] == h[j];
  }

  ghost predicate Sendable(argv: Command) {
    1 <= |argv| <= MAX_ARGS && forall i :: 0 <= i < |argv| ==> |argv[i]| <= MAX_BULK
  }

  /** What the arguments read so far add to the ones still to come. */
  function PrependAll(args: seq<Bytes>, size: nat, r: Outcome): Outcome {
    match r
    case Ok(rest, more) => Ok(args + rest, size + more)
    case other => other
  }

  lemma ArgsStep(s: Bytes, n: nat)
    requires n > 0
    ensures var r := ParseArg(s);
            ParseArgs(s, n) == if r.Stop? then r.outcome else Prepend(r.data, r.width, ParseArgs(s[r.width..], n - 1))
  {
  }

  lemma PrependNone(r: Outcome)
    ensures PrependAll([], 0, r) == r
  {
    if r.Ok? { assert [] + r.args == r.args; }
  }

  lemma PrependStop(args: seq<Bytes>, size: nat, stop: Outcome)
    requires !stop.Ok?
    ensures PrependAll(args, size, stop) == stop
  {
  }

  lemma PrependEnd(args: seq<Bytes>, size: nat, s: Bytes)
    ensures PrependAll(args, size, ParseArgs(s, 0)) == Ok(args, size)
  {
    assert args + [] == args;
  }

  lemma PrependOne(args: seq<Bytes>, size: nat, a: Bytes, width: nat, r: Outcome)
    ensures PrependAll(args, size, Prepend(a, width, r)) == PrependAll(args + [a], size + width, r)
  {
    if r.Ok? { assert args + ([a] + r.args) == (args + [a]) + r.args; }
  }

  /** Whatever follows, an encoded argument is read back whole. */
  lemma ArgReads(a: Bytes, tail: Bytes)
    requires |a| <= MAX_BULK
    ensures ParseArg(EncodeArg(a) + tail) == Arg(a, |EncodeArg(a)|)
  {
    hide Header, ReadLine, HeaderNumber;
    var h := Header(DOLLAR, |a|);
    var s := EncodeArg(a) + tail;
    var end := |h| + |a|;
    assert s == h + (a + CRLF + tail);
    HeaderReads(DOLLAR, |a|, a + CRLF + tail);
    assert s[|h|..end] == a && s[end] == CR && s[end + 1] == LF;
  }

  lemma FirstArg(a: Bytes, tail: Bytes, n: nat)
    requires |a| <= MAX_BULK
    ensures ParseArgs(EncodeArg(a) + tail, n + 1) == Prepend(a, |EncodeArg(a)|, ParseArgs(tail, n))
  {
    hide EncodeArg, ParseArg;
    ArgReads(a, tail);
    assert (EncodeArg(a) + tail)[|EncodeArg(a)|..] == tail;
  }

  lemma {:induction false} ArgsRead(args: seq<Bytes>, rest: Bytes)
    requires forall i :: 0 <= i < |args| ==> |args[i]| <= MAX_BULK
    ensures ParseArgs(EncodeArgs(args) + rest, |args|) == Ok(args, |EncodeArgs(args)|)
    decreases |args|
  {
    if args != [] {
      var a, more := args[0], EncodeArgs(args[1..]);
      assert EncodeArgs(args) == EncodeArg(a) + more;
      hide EncodeArg, EncodeArgs, ParseArgs;
      assert (EncodeArg(a) + more) + rest == EncodeArg(a) + (more + rest);
      FirstArg(a, more + rest, |args| - 1);
      ArgsRead(args[1..], rest);
      assert [a] + args[1..] == args;
    }
  }

  /** Whatever follows, an encoded command is read back whole. */
  lemma CommandReads(argv: Command, rest: Bytes)
    requires Sendable(argv)
    ensures ParseMultiBulk(EncodeCommand(argv) + rest) == Ok(argv, |EncodeCommand(argv)|)
  {
    hide Header, ReadLine, HeaderNumber, ParseArgs, EncodeArgs;
    var h := Header(STAR, |argv|);
    var s := EncodeCommand(argv) + rest;
    assert s == h + (EncodeArgs(argv) + rest);
    HeaderReads(STAR, |argv|, EncodeArgs(argv) + rest);
    assert s[|h|..] == EncodeArgs(argv) + rest;
    ArgsRead(argv, rest);
  }

  /** A cut within the first argument. */
  lemma ArgCut(a: Bytes, k: nat)
    requires |a| <= MAX_BULK && k < |EncodeArg(a)|
    ensures ParseArg(EncodeArg(a)[..k]) == Stop(if k < |Header(DOLLAR, |a|)| then Eof else Truncated)
  {
    hide Header, ReadLine, HeaderNumber;
    var h := Header(DOLLAR, |a|);
    var s := EncodeArg(a)[..k];
    if k < |h| {
      assert s == h[..k];
      HeaderCut(DOLLAR, |a|, k);
    } else {
      assert s == h + s[|h|..];
      HeaderReads(DOLLAR, |a|, s[|h|..]);
    }
  }

  /** Whether a cut after `k` bytes falls in the data of an argument rather than in a header line. */
  ghost predicate InData(args: seq<Bytes>, k: nat)
    requires k < |EncodeArgs(args)|
    decreases |args|
  {
    var w := |EncodeArg(args[0])|;
    if k < w then k >= |Header(DOLLAR, |args[0]|)| else InData(args[1..], k - w)
  }

  lemma {:induction false} ArgsCut(args: seq<Bytes>, k: nat)
    requires forall i :: 0 <= i < |args| ==> |args[i]| <= MAX_BULK
    requires k < |EncodeArgs(args)|
    ensures ParseArgs(EncodeArgs(args)[..k], |args|) == if InData(args, k) then Truncated else Eof
    decreases |args|
  {
    hide EncodeArg, ParseArg;
    var e := EncodeArg(args[0]);
    var more := EncodeArgs(args[1..]);
    assert EncodeArgs(args) == e + more;
    if k < |e| {
      assert (e + more)[..k] == e[..k];
      ArgCut(args[0], k);
    } else {
      assert (e + more)[..k] == e + more[..k - |e|];
      FirstArg(args[0], more[..k - |e|], |args| - 1);
      ArgsCut(args[1..], k - |e|);
    }
  }

  ghost predicate CutInData(argv: Command, k: nat)
    requires k < |EncodeCommand(argv)|
  {
    var h := |Header(STAR, |argv|)|;
    k >= h && InData(argv, k - h)
  }

  /** A proper prefix of an encoded command is never taken for a command, nor for garbage. */
  lemma CommandCut(argv: Command, k: nat)
    requires Sendable(argv) && k < |EncodeCommand(argv)|
    ensures ParseMultiBulk(EncodeCommand(argv)[..k]) == if CutInData(argv, k) then Truncated else Eof
  {
    hide Header, ReadLine, HeaderNumber, ParseArgs, EncodeArgs, InData;
    var h := Header(STAR, |argv|);
    var s := EncodeCommand(argv)[..k];
    if k < |h| {
      assert s == h[..k];
      HeaderCut(STAR, |argv|, k);
    } else {
      assert s == h + s[|h|..];
      HeaderReads(STAR, |argv|, s[|h|..]);
      assert s[|h|..] == EncodeArgs(argv)[..k - |h|];
      ArgsCut(argv, k - |h|);
    }
  }

  // ---------------------------------------------------------------------------
  // Requests, and the replay of a whole log.

  /** One request: multi-bulk after a star, otherwise a line split by `fields`. */
  function ParseRequest(s: Bytes, fields: Bytes -> seq<Bytes>): (r: Outcome)
    ensures r.Ok? ==> 1 <= r.size <= |s|
  {
    if s == [] then Eof
    else if s[0] == STAR then ParseMultiBulk(s)
    else match ReadLine(s)
      case None => Eof
      case Some(line) => Ok(fields(line.text), line.size)
  }

  datatype Replay = Replay(cmds: seq<Command>, failed: bool)

  function ReplayLog(s: Bytes, fields: Bytes -> seq<Bytes>): Replay
    decreases |s|
  {
    match ParseRequest(s, fields)
    case Eof => Replay([], false)
    case Truncated => Replay([], true)
    case Invalid => Replay([], true)
    case Ok(args, size) =>
      var more := ReplayLog(s[size..], fields);
      if args == [] then more else Replay([args] + more.cmds, more.failed)
  }

  lemma EncodeStar(argv: Command, rest: Bytes)
    ensures EncodeCommand(argv) + rest != [] && (EncodeCommand(argv) + rest)[0] == STAR
  {
  }

  /** A whole command at the front of the log is replayed, and then the rest of the log. */
  lemma ReplayCommand(argv: Command, rest: Bytes, fields: Bytes -> seq<Bytes>)
    requires Sendable(argv)
    ensures var more := ReplayLog(rest, fields);
            ReplayLog(EncodeCommand(argv) + rest, fields) == Replay([argv] + more.cmds, more.failed)
  {
    hide EncodeCommand, ParseMultiBulk;
    EncodeStar(argv, rest);
    CommandReads(argv, rest);
    var e := EncodeCommand(argv);
    assert (e + rest)[|e|..] == rest;
  }

  /** What is left of a cut command is never replayed; a cut in its data makes the replay fail. */
  lemma ReplayCut(argv: Command, k: nat, fields: Bytes -> seq<Bytes>)
    requires Sendable(argv) && k < |EncodeCommand(argv)|
    ensures ReplayLog(EncodeCommand(argv)[..k], fields) == Replay([], CutInData(argv, k))
  {
    hide ParseMultiBulk;
    CommandCut(argv, k);
    EncodeStar(argv, []);
  }

  /**
   * The first `k` bytes of a log of commands replay to exactly the `w` commands that lie wholly in
   * them, and the replay fails exactly when the cut falls in the data of an argument.
   */
  lemma {:induction false} ReplayPrefix(cmds: seq<Command>, w: nat, k: nat, fields: Bytes -> seq<Bytes>)
    requires forall i :: 0 <= i < |cmds| ==> Sendable(cmds[i])
    requires w <= |cmds| && |EncodeAll(cmds[..w])| <= k <= |EncodeAll(cmds)|
    requires w < |cmds| ==> k < |EncodeAll(cmds[..w])| + |EncodeCommand(cmds[w])|
    ensures ReplayLog(EncodeAll(cmds)[..k], fields) ==
            Replay(cmds[..w], w < |cmds| && CutInData(cmds[w], k - |EncodeAll(cmds[..w])|))
    decreases w
  {
    hide EncodeCommand, Sendable, CutInData, ReplayLog;
    if w == 0 {
      assert cmds[..0] == [];
      if cmds != [] {
        CutsFirst(cmds, k);
        ReplayCut(cmds[0], k, fields);
      } else {
        ReplayNothing(fields);
        assert EncodeAll(cmds)[..k] == [];
      }
    } else {
      var e, more := EncodeCommand(cmds[0]), EncodeAll(cmds[1..]);
      TakesFirst(cmds, w, k);
      ReplayCommand(cmds[0], more[..k - |e|], fields);
      ReplayPrefix(cmds[1..], w - 1, k - |e|, fields);
      assert [cmds[0]] + cmds[1..][..w - 1] == cmds[..w];
    }
  }

  lemma CutsFirst(cmds: seq<Command>, k: nat)
    requires cmds != [] && k < |EncodeCommand(cmds[0])|
    ensures EncodeAll(cmds)[..k] == EncodeCommand(cmds[0])[..k]
  {
    hide EncodeCommand;
  }

  /** A cut after the first of `w` commands or later, seen from behind the first. */
  lemma TakesFirst(cmds: seq<Command>, w: nat, k: nat)
    requires 0 < w <= |cmds| && |EncodeAll(cmds[..w])| <= k <= |EncodeAll(cmds)|
    ensures var e := |EncodeCommand(cmds[0])|;
            && e <= k && |EncodeAll(cmds[..w])| == e + |EncodeAll(cmds[1..][..w - 1])|
            && |EncodeAll(cmds)| == e + |EncodeAll(cmds[1..])|
            && EncodeAll(cmds)[..k] == EncodeCommand(cmds[0]) + EncodeAll(cmds[1..])[..k - e]
  {
    hide EncodeCommand;
    assert cmds[..w][1..] == cmds[1..][..w - 1];
  }

  lemma ReplayNothing(fields: Bytes -> seq<Bytes>)
    ensures ReplayLog([], fields) == Replay([], false)
  {
  }

  // ---------------------------------------------------------------------------
  // The program's own loops.

  method WriteCommand(argv: Command) returns (out: Bytes)
    ensures out == EncodeCommand(argv)
  {
    hide Header;
    out := Header(STAR, |argv|);
    var i := 0;
    assert argv[0..] == argv;
    while i < |argv|
      invariant 0 <= i <= |argv|
      invariant out + EncodeArgs(argv[i..]) == EncodeCommand(argv)
    {
      assert argv[i..][1..] == argv[i + 1..];
      ghost var before, more := out, EncodeArgs(argv[i + 1..]);
      out := out + Header(DOLLAR, |argv[i]|) + argv[i] + CRLF;
      assert out + more == before + (EncodeArg(argv[i]) + more);
      i := i + 1;
    }
  }

  class Reader {
    const input: Bytes
    var pos: nat

    ghost predicate Valid()
      reads this
    {
      pos <= |input|
    }

    function Rest(): Bytes
      requires Valid()
      reads this
    {
      input[pos..]
    }

    constructor (s: Bytes)
      ensures Valid() && Rest() == s
    {
      input, pos := s, 0;
    }

    /** The next line; at the end of the input what is left is consumed. */
    method NextLine() returns (r: Option<Line>)
      requires Valid()
      modifies this
      ensures Valid() && r == ReadLine(old(Rest()))
      ensures r.Some? ==> pos == old(pos) + r.value.size
    {
      ghost var s := Rest();
      var i := pos;
      while i < |input| && input[i] != LF
        invariant pos <= i <= |input|
        invariant forall k :: 0 <= k < i - pos ==> s[k] != LF
        modifies {}
      {
        i := i + 1;
      }
      assert FindLf(s) == i - pos;
      if i == |input| {
        pos := i;
        return None;
      }
      var text := if i > pos && input[i - 1] == CR then input[pos..i - 1] else input[pos..i];
      assert input[pos..i] == s[..i - pos];
      assert i > pos ==> input[pos..i - 1] == s[..i - pos - 1] && s[i - pos - 1] == input[i - 1];
      r := Some(Line(text, i + 1 - pos));
      pos := i + 1;
    }

    method NextArg() returns (r: ArgOutcome)
      requires Valid()
      modifies this
      ensures Valid() && r == ParseArg(old(Rest()))
      ensures r.Arg? ==> pos == old(pos) + r.width
    {
      hide ReadLine, HeaderNumber;
      ghost var s := Rest();
      var line := NextLine();
      if line.None? {
        return Stop(Eof);
      }
      var len := HeaderNumber(line.value.text, DOLLAR);
      if len.None? || len.value < 0 || len.value > MAX_BULK {
        return Stop(Invalid);
      }
      var end := pos + len.value;
      if |input| < end + 2 {
        pos := |input|;
        return Stop(Truncated);
      }
      var data := input[pos..end];
      assert s[line.value.size..line.value.size + len.value] == data;
      pos := end + 2;
      if input[end] != CR || input[end + 1] != LF {
        return Stop(Invalid);
      }
      return Arg(data, line.value.size + len.value + 2);
    }

    method NextArgs(argc: nat) returns (r: Outcome)
      requires Valid()
      modifies this
      ensures Valid() && r == ParseArgs(old(Rest()), argc)
      ensures r.Ok? ==> pos == old(pos) + r.size
    {
      hide ParseArg, ParseArgs, Prepend, PrependAll;
      ghost var body := Rest();
      var start := pos;
      var args: seq<Bytes> := [];
      var i := 0;
      PrependNone(ParseArgs(body, argc));
      while i < argc
        invariant Valid() && start <= pos && 0 <= i <= argc
        invariant ParseArgs(body, argc) == PrependAll(args, pos - start, ParseArgs(Rest(), argc - i))
      {
        ghost var s, size := Rest(), pos - start;
        var arg := NextArg();
        ArgsStep(s, argc - i);
        if arg.Stop? {
          PrependStop(args, size, arg.outcome);
          return arg.outcome;
        }
        assert Rest() == s[arg.width..];
        PrependOne(args, size, arg.data, arg.width, ParseArgs(Rest(), argc - i - 1));
        args := args + [arg.data];
        i := i + 1;
      }
      PrependEnd(args, pos - start, Rest());
      r := Ok(args, pos - start);
    }

    method NextMultiBulk() returns (r: Outcome)
      requires Valid()
      modifies this
      ensures Valid() && r == ParseMultiBulk(old(Rest()))
      ensures r.Ok? ==> pos == old(pos) + r.size
    {
      hide ReadLine, HeaderNumber, ParseArgs;
      ghost var s := Rest();
      var line := NextLine();
      if line.None? {
        return Eof;
      }
      var argc := HeaderNumber(line.value.text, STAR);
      if argc.None? || argc.value <= 0 || argc.value > MAX_ARGS {
        return Invalid;
      }
      assert Rest() == s[line.value.size..];
      r := NextArgs(argc.value);
      if r.Ok? {
        r := Ok(r.args, line.value.size + r.size);
      }
    }

    method NextRequest(fields: Bytes -> seq<Bytes>) returns (r: Outcome)
      requires Valid()
      modifies this
      ensures Valid() && r == ParseRequest(old(Rest()), fields)
      ensures r.Ok? ==> pos == old(pos) + r.size
    {
      hide ReadLine, ParseMultiBulk;
      if pos == |input| {
        return Eof;
      }
      if input[pos] == STAR {
        r := NextMultiBulk();
      } else {
        var line := NextLine();
        r := if line.None? then Eof else Ok(fields(line.value.text), line.value.size);
      }
    }
  }

  /** What the commands executed so far add to the replay still to come. */
  function After(executed: seq<Command>, more: Replay): Replay {
    Replay(executed + more.cmds, more.failed)
  }

  lemma ReplayStep(executed: seq<Command>, s: Bytes, fields: Bytes -> seq<Bytes>, next: seq<Command>)
    requires var r := ParseRequest(s, fields); r.Ok? && next == if r.args == [] then executed else executed + [r.args]
    ensures var r := ParseRequest(s, fields);
            After(executed, ReplayLog(s, fields)) == After(next, ReplayLog(s[r.size..], fields))
  {
    hide ParseRequest;
    var r := ParseRequest(s, fields);
    var more := ReplayLog(s[r.size..], fields);
    assert executed + ([r.args] + more.cmds) == (executed + [r.args]) + more.cmds;
  }

  lemma ReplayStop(executed: seq<Command>, s: Bytes, fields: Bytes -> seq<Bytes>)
    requires !ParseRequest(s, fields).Ok?
    ensures After(executed, ReplayLog(s, fields)) == Replay(executed, !ParseRequest(s, fields).Eof?)
  {
    assert executed + [] == executed;
  }

  /** Replays a log, command after command, into `executed`. */
  method Load(log: Bytes, fields: Bytes -> seq<Bytes>) returns (executed: seq<Command>, failed: bool)
    ensures Replay(executed, failed) == ReplayLog(log, fields)
  {
    executed := [];
    var reader := new Reader(log);
    assert [] + ReplayLog(log, fields).cmds == ReplayLog(log, fields).cmds;
    while true
      invariant fresh(reader) && reader.Valid()
      invariant ReplayLog(log, fields) == After(executed, ReplayLog(reader.Rest(), fields))
      decreases |reader.input| - reader.pos
    {
      hide ParseRequest, ReplayLog, After;
      ghost var s := reader.Rest();
      var r := reader.NextRequest(fields);
      if !r.Ok? {
        ReplayStop(executed, s, fields);
        return executed, !r.Eof?;
      }
      assert reader.Rest() == s[r.size..];
      ghost var before := executed;
      if r.args != [] { executed := executed + [r.args]; }
      ReplayStep(before, s, fields, executed);
    }
  }
}
