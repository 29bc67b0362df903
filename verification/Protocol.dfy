/** The RESP array format of commands: printer and parser as functions on byte strings. */
module Resp {
  import opened ByteStrings
  import opened Decimal

  const STAR: byte := 42
  const DOLLAR: byte := 36
  const CRLF: Bytes := [13, 10]

  /** Sizes that a 64-bit length can express. */
  predicate Fits(argv: seq<Bytes>) {
    |argv| <= INT64_MAX && forall i :: 0 <= i < |argv| ==> |argv[i]| <= INT64_MAX
  }

  function EncodeArg(a: Bytes): Bytes { [DOLLAR] + Dec(|a|) + CRLF + a + CRLF }

  function EncodeArgs(argv: seq<Bytes>): Bytes {
    if argv == [] then [] else EncodeArg(argv[0]) + EncodeArgs(argv[1..])
  }

  function Header(n: nat): Bytes { [STAR] + Dec(n) + CRLF }

  /** `CommandCache::ToProtocolString`. */
  function Encode(argv: seq<Bytes>): Bytes { Header(|argv|) + EncodeArgs(argv) }

  function EncodeAll(cmds: seq<seq<Bytes>>): Bytes {
    if cmds == [] then [] else Encode(cmds[0]) + EncodeAll(cmds[1..])
  }

  // ----- Reading -----

  function Take(s: Bytes, i: nat, n: nat): (r: Bytes)
    ensures |r| <= n && i + |r| <= (if i < |s| then |s| else i)
  {
    if i >= |s| then [] else if n < |s| - i then s[i..i + n] else s[i..]
  }

  /** `ReadLongFrom`, confined to the readable bytes. */
  function ReadLong(s: Bytes, i: nat): (r: Scan)
    ensures i <= |s| ==> i + r.step <= |s|
    ensures INT64_MIN <= r.value <= INT64_MAX
  {
    if i >= |s| then Scan(0, 0) else StrToLL(s[i..])
  }

  datatype One = Arg(arg: Bytes, used: nat) | Bad(err: bool)

  /** One `$`-argument at the front of `s`. */
  function ReadArg(s: Bytes): (r: One)
    requires s != []
    ensures r.Arg? ==> 1 <= r.used <= |s|
  {
    if s[0] != DOLLAR then Bad(true)
    else
      var sc := ReadLong(s, 1);
      if sc.step == 0 then Bad(|s| - 1 > 0)
      else
        var i := 1 + sc.step;
        if Take(s, i, 2) != CRLF then Bad(|s| - i >= 2)
        else
          var n := ToUnsigned(sc.value);
          var arg := Take(s, i + 2, n);
          if |arg| != n then Bad(|s| - (i + 2) >= n)
          else if Take(s, i + 2 + n, 2) != CRLF then Bad(|s| - (i + 2 + n) >= 2)
          else Arg(arg, i + 2 + n + 2)
  }

  datatype Parsed =
    | Done(used: nat, argv: seq<Bytes>)
    | Stale(argv: seq<Bytes>)
    | Cleared(err: bool)

  function More(k: nat, p: Parsed): Parsed { if p.Done? then p.(used := k + p.used) else p }

  /** The argument loop: `n` arguments from `s`, behind those already collected. Bytes that run out
      between two arguments leave the collected ones in the cache. */
  function ReadArgs(s: Bytes, n: int, argv: seq<Bytes>): (r: Parsed)
    ensures r.Done? ==> r.used <= |s|
    decreases |s|
  {
    if n <= 0 then Done(0, argv)
    else if s == [] then Stale(argv)
    else
      match ReadArg(s)
      case Bad(err) => Cleared(err)
      case Arg(a, used) => More(used, ReadArgs(s[used..], n - 1, argv + [a]))
  }

  datatype HeaderRead = Count(n: int, used: nat) | NoCount(err: bool)

  function ReadHeader(s: Bytes): (r: HeaderRead)
    requires s != [] && s[0] == STAR
    ensures r.Count? ==> 1 <= r.used <= |s| && INT64_MIN <= r.n <= INT64_MAX
  {
    var sc := ReadLong(s, 1);
    if sc.step == 0 then NoCount(true)
    else if Take(s, 1 + sc.step, 2) != CRLF then NoCount(|s| - (1 + sc.step) >= 2)
    else Count(sc.value, 1 + sc.step + 2)
  }

  /** What a call of the parser does: take a command, or refuse with the cache kept, stale or cleared,
      or discard a buffer that does not start a command. */
  datatype Outcome =
    | Accept(argv: seq<Bytes>, used: nat)
    | Empty
    | Discard
    | KeepStale(argc: nat, argv: seq<Bytes>)
    | Refuse(err: bool)

  function Parse(s: Bytes, argv: seq<Bytes>): (r: Outcome)
    ensures r.Accept? ==> 1 <= r.used <= |s|
  {
    if s == [] then Empty
    else if s[0] != STAR then Discard
    else
      match ReadHeader(s)
      case NoCount(err) => Refuse(err)
      case Count(n, used) =>
        match ReadArgs(s[used..], n, argv)
        case Stale(left) => KeepStale(ToUnsigned(n), left)
        case Cleared(err) => Refuse(err)
        case Done(more, all) => if ToUnsigned(n) == |all| then Accept(all, used + more) else Refuse(false)
  }

  // ----- A complete command is read back, whatever follows -----

  lemma LineComplete(c: byte, n: nat, rest: Bytes)
    requires n <= INT64_MAX
    ensures var s := [c] + Dec(n) + CRLF + rest;
      ReadLong(s, 1) == Scan(n, |Dec(n)|) && Take(s, 1 + |Dec(n)|, 2) == CRLF && s[|Dec(n)| + 3..] == rest
  {
    var s := [c] + Dec(n) + CRLF + rest;
    assert s[1..] == Dec(n) + (CRLF + rest);
    ScanDec(n, CRLF + rest);
    assert s[1 + |Dec(n)|..1 + |Dec(n)| + 2] == CRLF;
  }

  lemma TakeMiddle(x: Bytes, m: Bytes, y: Bytes)
    ensures Take(x + m + y, |x|, |m|) == m
  {
    var s := x + m + y;
    assert s[|x|..|x| + |m|] == m;
    assert s[|x|..] == m + y;
  }

  lemma ReadArgIs(s: Bytes, k: nat, n: nat, arg: Bytes)
    requires s != [] && s[0] == DOLLAR && k > 0 && n <= INT64_MAX && ReadLong(s, 1) == Scan(n, k)
    requires Take(s, 1 + k, 2) == CRLF && Take(s, 1 + k + 2, n) == arg && |arg| == n
    ensures ReadArg(s) == if Take(s, 1 + k + 2 + n, 2) == CRLF then Arg(arg, k + n + 5) else Bad(|s| - (1 + k + 2 + n) >= 2)
  {
  }

  lemma ArgComplete(a: Bytes, rest: Bytes)
    requires |a| <= INT64_MAX
    ensures ReadArg(EncodeArg(a) + rest) == Arg(a, |EncodeArg(a)|)
  {
    hide ReadLong;
    hide Dec;
    hide ReadArg;
    var s, line := EncodeArg(a) + rest, [DOLLAR] + Dec(|a|) + CRLF;
    assert s == line + (a + CRLF + rest);
    LineComplete(DOLLAR, |a|, a + CRLF + rest);
    assert s == line + a + (CRLF + rest);
    TakeMiddle(line, a, CRLF + rest);
    assert s == (line + a) + CRLF + rest;
    TakeMiddle(line + a, CRLF, rest);
    assert s[0] == DOLLAR;
    ReadArgIs(s, |Dec(|a|)|, |a|, a);
  }

  lemma ArgsStep(a: Bytes, more: Bytes, n: nat, before: seq<Bytes>)
    requires |a| <= INT64_MAX
    ensures ReadArgs(EncodeArg(a) + more, n + 1, before) == More(|EncodeArg(a)|, ReadArgs(more, n, before + [a]))
  {
    hide ReadArg;
    hide EncodeArg;
    ArgComplete(a, more);
    assert (EncodeArg(a) + more)[|EncodeArg(a)|..] == more;
  }

  lemma ArgsCompleteStep(a: Bytes, tail: seq<Bytes>, all: Bytes, used: nat, before: seq<Bytes>, result: seq<Bytes>)
    requires |a| <= INT64_MAX && ReadArgs(all, |tail|, before + [a]) == Done(used, result)
    ensures ReadArgs(EncodeArg(a) + all, |tail| + 1, before) == Done(|EncodeArg(a)| + used, result)
  {
    hide ReadArgs;
    hide EncodeArg;
    ArgsStep(a, all, |tail|, before);
  }

  lemma NoArgs(s: Bytes, before: seq<Bytes>)
    ensures ReadArgs(s, 0, before) == Done(0, before)
  {
  }

  lemma {:induction false} ArgsComplete(argv: seq<Bytes>, rest: Bytes, before: seq<Bytes>)
    requires Fits(argv)
    ensures ReadArgs(EncodeArgs(argv) + rest, |argv|, before) == Done(|EncodeArgs(argv)|, before + argv)
  {
    hide ReadArgs;
    hide EncodeArg;
    if argv == [] {
      NoArgs(EncodeArgs(argv) + rest, before);
      assert before + argv == before;
    } else {
      var a, tail := argv[0], argv[1..];
      ArgsComplete(tail, rest, before + [a]);
      assert before + [a] + tail == before + argv;
      ArgsCompleteStep(a, tail, EncodeArgs(tail) + rest, |EncodeArgs(tail)|, before, before + argv);
      assert EncodeArgs(argv) + rest == EncodeArg(a) + (EncodeArgs(tail) + rest);
    }
  }

  lemma HeaderComplete(n: nat, rest: Bytes)
    requires n <= INT64_MAX
    ensures var s := Header(n) + rest; s[0] == STAR && ReadHeader(s) == Count(n, |Header(n)|) && s[|Header(n)|..] == rest
  {
    assert Header(n) + rest == [STAR] + Dec(n) + CRLF + rest;
    LineComplete(STAR, n, rest);
  }

  /** A buffer that starts with a complete command is accepted with exactly its arguments and length
      when the cache is clean, and refused without consuming anything when it is not. */
  lemma ParseComplete(argv: seq<Bytes>, rest: Bytes, before: seq<Bytes>)
    requires Fits(argv)
    ensures Parse(Encode(argv) + rest, before) == if before == [] then Accept(argv, |Encode(argv)|) else Refuse(false)
  {
    hide ReadHeader;
    hide ReadArgs;
    var more := EncodeArgs(argv) + rest;
    assert Encode(argv) + rest == Header(|argv|) + more;
    HeaderComplete(|argv|, more);
    ArgsComplete(argv, rest, before);
    assert [] + argv == argv;
  }

  // ----- A strict prefix is refused -----

  lemma ScanDigits(d: Bytes)
    requires d != [] && forall i :: 0 <= i < |d| ==> IsDigit(d[i])
    ensures ScanInt(d).step == |d|
  {
    assert SkipSpace(d, 0) == 0;
    DigitsEndIs(d, 0, |d|);
  }

  /** A strict prefix of a count line, its first byte included. */
  lemma LinePrefix(c: byte, n: nat, p: Bytes)
    requires n <= INT64_MAX && p < [c] + Dec(n) + CRLF && p != []
    ensures var sc := ReadLong(p, 1);
      if |p| == 1 then sc.step == 0
      else sc.step > 0 && Take(p, 1 + sc.step, 2) != CRLF && |p| - (1 + sc.step) < 2
  {
    var d := Dec(n);
    var m := |p| - 1;
    if 0 < m <= |d| {
      assert p[1..] == d[..m];
      ScanDigits(d[..m]);
    } else if m > 0 {
      assert p[1..] == d + [13];
      ScanDec(n, [13]);
    }
  }

  lemma ArgPrefix(a: Bytes, p: Bytes)
    requires |a| <= INT64_MAX && p < EncodeArg(a) && p != []
    ensures ReadArg(p) == Bad(false)
  {
    hide ReadLong;
    hide Dec;
    var line, k := [DOLLAR] + Dec(|a|) + CRLF, |Dec(|a|)|;
    assert p[0] == EncodeArg(a)[0] == DOLLAR;
    if |p| < |line| {
      assert p < line by { assert EncodeArg(a)[..|line|] == line; }
      LinePrefix(DOLLAR, |a|, p);
    } else {
      var q := p[|line|..];
      assert p == line + q && EncodeArg(a) == line + (a + CRLF) by { assert EncodeArg(a)[..|line|] == line; }
      assert q == (a + CRLF)[..|q|];
      LineComplete(DOLLAR, |a|, q);
      if |q| < |a| {
        assert p[k + 3..] == q;
      } else {
        assert p == line + a + q[|a|..];
        TakeMiddle(line, a, q[|a|..]);
        ReadArgIs(p, k, |a|, a);
      }
    }
  }

  /** The cache is cleared, or keeps some first arguments. */
  ghost predicate Truncated(r: Parsed, argv: seq<Bytes>, before: seq<Bytes>) {
    r == Cleared(false) || (r.Stale? && exists k :: 0 <= k < |argv| && r.argv == before + argv[..k])
  }

  lemma TruncatedStep(r: Parsed, argv: seq<Bytes>, before: seq<Bytes>)
    requires argv != [] && Truncated(r, argv[1..], before + [argv[0]])
    ensures Truncated(r, argv, before)
  {
    var a, tail := argv[0], argv[1..];
    if r.Stale? {
      var k :| 0 <= k < |tail| && r.argv == before + [a] + tail[..k];
      assert before + argv[..k + 1] == r.argv;
    }
  }

  lemma ArgsShort(argv: seq<Bytes>, q: Bytes, before: seq<Bytes>)
    requires Fits(argv) && argv != [] && q < EncodeArg(argv[0])
    ensures Truncated(ReadArgs(q, |argv|, before), argv, before)
  {
    hide ReadArg;
    hide EncodeArg;
    if q == [] {
      assert before + argv[..0] == before;
    } else {
      ArgPrefix(argv[0], q);
    }
  }

  /** A strict prefix of `x + y` is one of `x`, or `x` and a strict prefix of `y`. */
  lemma PrefixSplit(x: Bytes, y: Bytes, q: Bytes)
    requires q < x + y
    ensures |q| < |x| ==> q < x
    ensures |q| >= |x| ==> q == x + q[|x|..] && q[|x|..] < y
  {
    assert (x + y)[..|x|] == x && (x + y)[|x|..] == y;
  }

  /** Bytes that end inside the arguments. */
  lemma {:induction false} ArgsPrefix(argv: seq<Bytes>, q: Bytes, before: seq<Bytes>)
    requires Fits(argv) && q < EncodeArgs(argv)
    ensures Truncated(ReadArgs(q, |argv|, before), argv, before)
  {
    hide ReadArgs;
    hide EncodeArg;
    var a, tail := argv[0], argv[1..];
    var x := EncodeArg(a);
    PrefixSplit(x, EncodeArgs(tail), q);
    if |q| < |x| {
      ArgsShort(argv, q, before);
    } else {
      var more := q[|x|..];
      ArgsPrefix(tail, more, before + [a]);
      var r := ReadArgs(more, |tail|, before + [a]);
      TruncatedStep(r, argv, before);
      assert ReadArgs(q, |argv|, before) == More(|x|, r) by {
        assert |argv| == |tail| + 1;
        ArgsStep(a, more, |tail|, before);
      }
    }
  }

  /** A strict prefix of a command of at least two bytes is refused with the error flag unset and
      nothing consumed; one byte is refused too. */
  lemma ParsePrefix(argv: seq<Bytes>, p: Bytes, before: seq<Bytes>)
    requires Fits(argv) && p < Encode(argv) && p != []
    ensures var r := Parse(p, before);
      || r == Refuse(|p| == 1)
      || (|p| > 1 && r.KeepStale? && exists k :: 0 <= k < |argv| && r.argv == before + argv[..k])
  {
    hide ReadArgs;
    hide ReadLong;
    hide EncodeArgs;
    var h := Header(|argv|);
    assert p[0] == STAR;
    PrefixSplit(h, EncodeArgs(argv), p);
    if |p| < |h| {
      LinePrefix(STAR, |argv|, p);
    } else {
      var q := p[|h|..];
      HeaderComplete(|argv|, q);
      ArgsPrefix(argv, q, before);
    }
  }

  // ----- What is left in the cache, and when the error flag is set -----

  /** Complete arguments are collected one after the other, whatever stands behind them. */
  lemma {:induction false} ArgsThen(done: seq<Bytes>, tail: Bytes, n: nat, before: seq<Bytes>)
    requires Fits(done) && |done| <= n
    ensures ReadArgs(EncodeArgs(done) + tail, n, before) ==
            More(|EncodeArgs(done)|, ReadArgs(tail, n - |done|, before + done))
  {
    hide ReadArgs, EncodeArg;
    if done == [] {
      assert [] + tail == tail && before + done == before;
    } else {
      var a, more := done[0], EncodeArgs(done[1..]) + tail;
      assert EncodeArgs(done) + tail == EncodeArg(a) + more;
      ArgsStep(a, more, n - 1, before);
      ArgsThen(done[1..], tail, n - 1, before + [a]);
      assert before + [a] + done[1..] == before + done;
    }
  }

  /** Bytes that end between two arguments are refused without an error, and leave exactly the
      arguments in front of that point in the cache. */
  lemma BoundaryKeepsStale(argv: seq<Bytes>, k: nat, before: seq<Bytes>)
    requires Fits(argv) && k < |argv|
    ensures Parse(Header(|argv|) + EncodeArgs(argv[..k]), before) == KeepStale(|argv|, before + argv[..k])
  {
    hide ReadHeader, ReadArgs, EncodeArgs, Header;
    var p := EncodeArgs(argv[..k]);
    HeaderComplete(|argv|, p);
    ArgsThen(argv[..k], [], |argv|, before);
    assert p + [] == p;
    NothingMore(|argv| - k, before + argv[..k]);
  }

  lemma NothingMore(n: nat, argv: seq<Bytes>)
    requires n > 0
    ensures ReadArgs([], n, argv) == Stale(argv)
  {
  }

  /** Where an argument should start, any byte but `$` is an error, and the cache is cleared. */
  lemma GarbageRefused(n: nat, done: seq<Bytes>, x: byte, rest: Bytes, before: seq<Bytes>)
    requires Fits(done) && |done| < n <= INT64_MAX && x != 36
    ensures Parse(Header(n) + EncodeArgs(done) + [x] + rest, before) == Refuse(true)
  {
    hide ReadHeader, ReadArgs, EncodeArgs, Header;
    var p, tail := EncodeArgs(done), [x] + rest;
    assert Header(n) + p + [x] + rest == Header(n) + (p + tail);
    HeaderComplete(n, p + tail);
    ArgsThen(done, tail, n, before);
    WrongByte(n - |done|, x, rest, before + done);
  }

  lemma WrongByte(n: nat, x: byte, rest: Bytes, argv: seq<Bytes>)
    requires n > 0 && x != 36
    ensures ReadArgs([x] + rest, n, argv) == Cleared(true)
  {
  }

  // ----- The format byte by byte -----

  /** At the front of `s`: `$`, the length of `a` in `k` decimal digits, CR LF, `a`, CR LF. */
  predicate ArgShape(s: Bytes, a: Bytes, k: nat): (yes: bool)
    ensures yes ==> |s| >= k + |a| + 5
  {
    && |s| >= k + |a| + 5 && s[0] == 36 && IsDecimal(s[1..1 + k], |a|) && s[1 + k] == 13 && s[2 + k] == 10
    && s[3 + k..3 + k + |a|] == a && s[3 + k + |a|] == 13 && s[4 + k + |a|] == 10
  }

  /** Nothing but the arguments, one behind the other. */
  ghost predicate ArgsShape(s: Bytes, argv: seq<Bytes>)
    decreases |argv|
  {
    if argv == [] then s == []
    else exists k: nat :: ArgShape(s, argv[0], k) && ArgsShape(s[k + |argv[0]| + 5..], argv[1..])
  }

  /** `*`, the number of arguments in `k` decimal digits, CR LF, the arguments. */
  ghost predicate ShapeAt(s: Bytes, argv: seq<Bytes>, k: nat) {
    && |s| >= k + 3 && s[0] == 42 && IsDecimal(s[1..1 + k], |argv|) && s[1 + k] == 13 && s[2 + k] == 10
    && ArgsShape(s[3 + k..], argv)
  }

  ghost predicate Shape(s: Bytes, argv: seq<Bytes>) { exists k: nat :: ShapeAt(s, argv, k) }

  lemma ArgShapeOf(a: Bytes, rest: Bytes)
    ensures var s, k := EncodeArg(a) + rest, |Dec(|a|)|; ArgShape(s, a, k) && s[k + |a| + 5..] == rest
  {
    var d := Dec(|a|);
    var s, k := EncodeArg(a) + rest, |d|;
    DecIs(|a|);
    hide Dec, IsDecimal;
    assert s[1..1 + k] == d && s[3 + k..3 + k + |a|] == a && s[k + |a| + 5..] == rest;
    assert s[1 + k] == 13 && s[2 + k] == 10 && s[3 + k + |a|] == 13 && s[4 + k + |a|] == 10;
  }

  lemma ArgShapeIs(s: Bytes, a: Bytes, k: nat)
    requires ArgShape(s, a, k)
    ensures s == EncodeArg(a) + s[k + |a| + 5..]
  {
    DecimalIff(s[1..1 + k], |a|);
    hide Dec, IsDecimal;
    var d := s[1..1 + k];
    assert s[..3 + k] == [36] + d + [13, 10];
    assert s[3 + k..k + |a| + 5] == a + [13, 10];
    assert s == s[..3 + k] + s[3 + k..k + |a| + 5] + s[k + |a| + 5..];
  }

  lemma {:induction false} ArgsShapeIff(s: Bytes, argv: seq<Bytes>)
    ensures ArgsShape(s, argv) <==> s == EncodeArgs(argv)
    decreases |argv|
  {
    hide ArgShape, EncodeArg, Dec;
    if argv != [] {
      var a := argv[0];
      if ArgsShape(s, argv) {
        var k: nat :| ArgShape(s, a, k) && ArgsShape(s[k + |a| + 5..], argv[1..]);
        ArgShapeIs(s, a, k);
        ArgsShapeIff(s[k + |a| + 5..], argv[1..]);
      }
      if s == EncodeArgs(argv) {
        ArgShapeOf(a, EncodeArgs(argv[1..]));
        ArgsShapeIff(EncodeArgs(argv[1..]), argv[1..]);
      }
    }
  }

  /** A string has the literal shape of a command exactly if it is what the printer prints. */
  lemma ShapeIff(s: Bytes, argv: seq<Bytes>)
    ensures Shape(s, argv) <==> s == Encode(argv)
  {
    hide ArgsShape, EncodeArgs;
    if Shape(s, argv) {
      var k: nat :| ShapeAt(s, argv, k);
      DecimalIff(s[1..1 + k], |argv|);
      ArgsShapeIff(s[3 + k..], argv);
      hide Dec, IsDecimal;
      assert s[..3 + k] == [42] + s[1..1 + k] + [13, 10];
      assert s == s[..3 + k] + s[3 + k..];
    }
    if s == Encode(argv) {
      var d := Dec(|argv|);
      DecIs(|argv|);
      ArgsShapeIff(EncodeArgs(argv), argv);
      hide Dec, IsDecimal;
      assert s[1..1 + |d|] == d && s[3 + |d|..] == EncodeArgs(argv);
      assert s[1 + |d|] == 13 && s[2 + |d|] == 10;
      assert ShapeAt(s, argv, |d|);
    }
  }

  /** A buffer that starts with the literal shape of a command is accepted with its arguments. */
  lemma ShapeAccepted(s: Bytes, argv: seq<Bytes>, rest: Bytes)
    requires Fits(argv) && Shape(s, argv)
    ensures Parse(s + rest, []) == Accept(argv, |s|)
  {
    hide Shape, Parse, Encode;
    ShapeIff(s, argv);
    ParseComplete(argv, rest, []);
  }

  /** The bytes of `*1 $4 ping`, each part ended by CR LF. */
  lemma Ping(rest: Bytes)
    ensures var s := [42, 49, 13, 10, 36, 52, 13, 10, 112, 105, 110, 103, 13, 10];
            Encode([[112, 105, 110, 103]]) == s && Parse(s + rest, []) == Accept([[112, 105, 110, 103]], 14)
  {
    var ping: Bytes := [112, 105, 110, 103];
    var s: Bytes := [42, 49, 13, 10, 36, 52, 13, 10, 112, 105, 110, 103, 13, 10];
    assert Dec(1) == [49] && Dec(4) == [52];
    assert [ping][1..] == [];
    assert EncodeArgs([ping]) == EncodeArg(ping) + [];
    assert Encode([ping]) == s;
    ShapeIff(s, [ping]);
    ShapeAccepted(s, [ping], rest);
  }
}

/** The read buffer of src/net/buffer.h: bytes between a read and a write index. */
module Buffers {
  import opened ByteStrings
  import opened Decimal
  import opened Resp

  class Buffer {
    var data: array<byte>
    var reader: nat
    var writer: nat

    /** The indices are in order, and nothing but zeros lies behind the write index. */
    ghost predicate Valid()
      reads this, data
    {
      reader <= writer <= data.Length && forall i :: writer <= i < data.Length ==> data[i] == 0
    }

    ghost function Readable(): Bytes
      requires Valid()
      reads this, data
    {
      data[reader..writer]
    }

    constructor (size: nat := 64)
      ensures Valid() && fresh(data) && Readable() == []
    {
      data := new byte[size](_ => 0);
      reader, writer := 0, 0;
    }

    method MoveReadableToHead()
      requires Valid()
      modifies this, data
      ensures Valid() && Readable() == old(Readable()) && data == old(data) && reader == 0
      ensures writer == old(writer) - old(reader)
    {
      var n, r := writer - reader, reader;
      ghost var bytes := data[reader..writer];
      for i := 0 to n
        invariant data[..i] == bytes[..i]
        invariant forall k :: i + r <= k < data.Length ==> data[k] == old(data[k])
        modifies data
      {
        data[i] := data[i + r];
      }
      for i := n to n + r
        invariant data[..n] == bytes
        invariant forall k :: n <= k < i ==> data[k] == 0
        invariant forall k :: n + r <= k < data.Length ==> data[k] == 0
        modifies data
      {
        data[i] := 0;
      }
      reader, writer := 0, n;
    }

    method EnsureBytesForWrite(n: nat)
      requires Valid()
      modifies this, data
      ensures Valid() && Readable() == old(Readable()) && data.Length - writer >= n
      ensures data == old(data) || fresh(data)
    {
      if data.Length - writer < n {
        if reader + (data.Length - writer) >= n {
          MoveReadableToHead();
        } else {
          var place := new byte[writer + n + 2](_ => 0);
          var r := writer - reader;
          for i := 0 to r
            invariant place[..i] == data[reader..reader + i]
            invariant forall k :: i <= k < place.Length ==> place[k] == 0
            modifies place
          {
            place[i] := data[reader + i];
          }
          data, reader, writer := place, 0, r;
        }
      }
    }

    /** Copies bytes behind the write index. */
    method Write(value: Bytes)
      requires Valid() && data.Length - writer >= |value|
      modifies data
      ensures data[..writer] == old(data[..writer]) && data[writer..writer + |value|] == value
      ensures forall k :: writer + |value| <= k < data.Length ==> data[k] == 0
    {
      ghost var head := data[..writer];
      for i := 0 to |value|
        invariant data[..writer] == head && data[writer..writer + i] == value[..i]
        invariant forall k :: writer + i <= k < data.Length ==> data[k] == 0
      {
        data[writer + i] := value[i];
      }
    }

    method Append(value: Bytes)
      requires Valid()
      modifies this, data
      ensures Valid() && Readable() == old(Readable()) + value && (data == old(data) || fresh(data))
    {
      EnsureBytesForWrite(|value|);
      ghost var bytes, head, w := Readable(), data[..writer], writer;
      assert bytes == head[reader..];
      Write(value);
      writer := writer + |value|;
      assert data[reader..writer] == data[..w][reader..] + data[w..writer];
    }

    method ReaderIdxForward(len: nat)
      requires Valid()
      modifies this`reader
      ensures Valid()
      ensures Readable() == old(Readable())[if len < |old(Readable())| then len else |old(Readable())|..]
    {
      var n := if len < writer - reader then len else writer - reader;
      reader := reader + n;
    }

    method Reset()
      requires Valid()
      modifies this, data
      ensures Valid() && Readable() == [] && data == old(data)
    {
      for i := 0 to data.Length
        invariant forall k :: 0 <= k < i ==> data[k] == 0
        modifies data
      {
        data[i] := 0;
      }
      reader, writer := 0, 0;
    }

    /** `strtoll` on the raw array reads on to a byte that is no digit. Behind the write index it finds
        a zero, so it reads exactly the number in the readable bytes. */
    lemma NumberEndsAtWriter(index: nat)
      requires Valid() && index < |Readable()|
      ensures StrToLL(data[reader + index..]) == StrToLL(Readable()[index..])
    {
      var s := Readable()[index..];
      if writer < data.Length {
        assert data[reader + index..] == s + [0] + data[writer + 1..];
        ScanStopsAtNul(s, data[writer + 1..]);
      } else {
        assert data[reader + index..] == s;
      }
    }

    method ReadLongFrom(index: nat) returns (num: int, step: nat)
      requires Valid()
      ensures Scan(num, step) == ReadLong(Readable(), index)
    {
      hide StrToLL;
      if index >= writer - reader { return 0, 0; }
      NumberEndsAtWriter(index);
      var sc := StrToLL(data[reader + index..]);
      return sc.value, sc.step;
    }

    method ReadStdStringFrom(index: nat, len: nat) returns (s: Bytes)
      requires Valid()
      ensures s == Take(Readable(), index, len)
    {
      if index >= writer - reader { return []; }
      var n := if len < writer - reader - index then len else writer - reader - index;
      var from := reader + index;
      s := data[from..from + n];
      ghost var r := Readable();
      assert forall k :: 0 <= k < n ==> s[k] == r[index + k];
      assert s == r[index..index + n];
      if index + n == |r| { assert r[index..] == r[index..index + n]; }
    }

    /** An index past the end means the last byte. */
    method ReadableCharacterAt(index: nat) returns (c: byte)
      requires Valid() && Readable() != []
      ensures c == Readable()[if index < |Readable()| then index else |Readable()| - 1]
    {
      var i := if index < writer - reader - 1 then index else writer - reader - 1;
      c := data[reader + i];
    }
  }
}

/** Commands in and out of byte streams: src/net/net.h, src/net/protocol.cpp, `CommonOperation`. */
module Loader {
  import opened ByteStrings
  import opened Decimal
  import opened Resp
  import opened Buffers

  class CommandCache {
    var inited: bool
    var argc: nat
    var argv: seq<Bytes>

    constructor ()
      ensures !inited && argc == 0 && argv == []
    {
      inited, argc, argv := false, 0, [];
    }

    method Clear()
      modifies this
      ensures !inited && argc == 0 && argv == []
    {
      inited, argc, argv := false, 0, [];
    }
  }

  /** One argument as `ToProtocolString` prints it. */
  method PrintArg(item: Bytes) returns (s: Bytes)
    ensures s == EncodeArg(item)
  {
    if item == [] {
      s := [DOLLAR, 48, 13, 10, 13, 10];
    } else {
      s := [DOLLAR] + Dec(|item|) + CRLF + item + CRLF;
    }
  }

  /** `ToProtocolString`, for a cache whose count is the number of its arguments. */
  method ToProtocolString(argv: seq<Bytes>) returns (s: Bytes)
    ensures s == Encode(argv) && Shape(s, argv)
  {
    ShapeIff(Encode(argv), argv);
    hide Shape, EncodeArg, EncodeArgs, Dec;
    s := [STAR] + Dec(|argv|) + CRLF;
    assert argv[0..] == argv;
    for i := 0 to |argv|
      invariant s + EncodeArgs(argv[i..]) == Encode(argv)
    {
      var item := PrintArg(argv[i]);
      EncodeArgsAt(argv, i);
      assert s + item + EncodeArgs(argv[i + 1..]) == s + EncodeArgs(argv[i..]);
      s := s + item;
    }
    NoMoreArgs(argv[|argv|..]);
  }

  lemma NoMoreArgs(argv: seq<Bytes>)
    requires argv == []
    ensures EncodeArgs(argv) == []
  {
  }

  lemma EncodeArgsAt(argv: seq<Bytes>, i: nat)
    requires i < |argv|
    ensures EncodeArgs(argv[i..]) == EncodeArg(argv[i]) + EncodeArgs(argv[i + 1..])
  {
    hide EncodeArg;
    assert argv[i..][0] == argv[i] && argv[i..][1..] == argv[i + 1..];
  }

  /** The state that a parser call leaves behind. */
  ghost predicate Leaves(o: Outcome, ok: bool, err: bool, before: Bytes, after: Bytes, argc: nat, argv: seq<Bytes>, argv': seq<Bytes>) {
    match o
    case Accept(all, used) => ok && used <= |before| && after == before[used..] && argv' == all && argc == |all|
    case Empty => !ok && !err && after == before && argv' == argv
    case Discard => !ok && err && after == [] && argv' == argv
    case KeepStale(n, left) => !ok && !err && after == before && argv' == left && argc == n
    case Refuse(e) => !ok && err == e && after == before && argv' == [] && argc == 0
  }

  lemma TakeShift(r: Bytes, start: nat, i: nat, n: nat)
    requires start <= |r|
    ensures Take(r[start..], i, n) == Take(r, start + i, n)
  {
  }

  lemma ReadLongShift(r: Bytes, start: nat, i: nat)
    requires start <= |r|
    ensures ReadLong(r[start..], i) == ReadLong(r, start + i)
  {
    hide StrToLL;
    if start + i < |r| { assert r[start..][i..] == r[start + i..]; }
  }

  /** One round of the argument loop, from index `start` of the readable bytes on; `next` is the index
      behind the argument, 0 for a refusal. */
  method ParseArg(buffer: Buffer, start: nat) returns (next: nat, arg: Bytes, err: bool)
    requires buffer.Valid() && start < |buffer.Readable()|
    ensures next == 0 ==> ReadArg(buffer.Readable()[start..]) == Bad(err)
    ensures next > 0 ==> start < next && ReadArg(buffer.Readable()[start..]) == Arg(arg, next - start)
  {
    hide StrToLL, Take, ReadLong;
    ghost var r := buffer.Readable();
    var total := buffer.writer - buffer.reader;
    arg := [];
    var c := buffer.ReadableCharacterAt(start);
    if c != DOLLAR { return 0, arg, true; }
    var cur := start + 1;
    var len, step := buffer.ReadLongFrom(cur);
    ReadLongShift(r, start, 1);
    if step == 0 { return 0, arg, total - cur > 0; }
    cur := cur + step;
    var crlf := buffer.ReadStdStringFrom(cur, 2);
    TakeShift(r, start, 1 + step, 2);
    if crlf != CRLF { return 0, arg, total - cur >= 2; }
    cur := cur + 2;
    var n := ToUnsigned(len);
    arg := buffer.ReadStdStringFrom(cur, n);
    TakeShift(r, start, 1 + step + 2, n);
    if |arg| != n { return 0, arg, total - cur >= n; }
    cur := cur + n;
    crlf := buffer.ReadStdStringFrom(cur, 2);
    TakeShift(r, start, 1 + step + 2 + n, 2);
    if crlf != CRLF { return 0, arg, total - cur >= 2; }
    return cur + 2, arg, false;
  }

  lemma NextArg(s: Bytes, n: int, argv: seq<Bytes>, arg: Bytes, used: nat, k: nat)
    requires n > 0 && s != [] && ReadArg(s) == Arg(arg, used)
    ensures More(k, ReadArgs(s, n, argv)) == More(k + used, ReadArgs(s[used..], n - 1, argv + [arg]))
  {
  }

  lemma ArgsStop(s: Bytes, n: int, argv: seq<Bytes>)
    ensures n <= 0 ==> ReadArgs(s, n, argv) == Done(0, argv)
    ensures n > 0 && s == [] ==> ReadArgs(s, n, argv) == Stale(argv)
    ensures n > 0 && s != [] && ReadArg(s).Bad? ==> ReadArgs(s, n, argv) == Cleared(ReadArg(s).err)
  {
    hide ReadArg;
  }

  datatype LoopEnd = Finished | RanOut | Broken(err: bool)

  /** The argument loop, from `start` on: new arguments go behind those in the cache. */
  method ParseArgs(buffer: Buffer, start: nat, count: int, cache: CommandCache) returns (end: LoopEnd, cur: nat)
    requires buffer.Valid() && start <= |buffer.Readable()|
    modifies cache`argv
    ensures start <= cur <= |buffer.Readable()|
    ensures ReadArgs(buffer.Readable()[start..], count, old(cache.argv)) ==
      match end
      case Finished => Done(cur - start, cache.argv)
      case RanOut => Stale(cache.argv)
      case Broken(err) => Cleared(err)
  {
    hide ReadArg, ReadArgs;
    cur := start;
    var nPara := count;
    ghost var r := buffer.Readable();
    ghost var want := ReadArgs(r[start..], count, cache.argv);
    while nPara > 0
      invariant start <= cur <= |r| && nPara <= count
      invariant More(cur - start, ReadArgs(r[cur..], nPara, cache.argv)) == want
      decreases nPara
    {
      ArgsStop(r[cur..], nPara, cache.argv);
      if cur >= buffer.writer - buffer.reader { return RanOut, cur; }
      var next, arg, bad := ParseArg(buffer, cur);
      if next == 0 { return Broken(bad), cur; }
      assert r[cur..][next - cur..] == r[next..];
      NextArg(r[cur..], nPara, cache.argv, arg, next - cur, cur - start);
      cache.argv := cache.argv + [arg];
      cur, nPara := next, nPara - 1;
    }
    ArgsStop(r[cur..], nPara, cache.argv);
    end := Finished;
  }

  method TryParseFromBuffer(buffer: Buffer, cache: CommandCache) returns (ok: bool, err: bool)
    requires buffer.Valid()
    modifies buffer, buffer.data, cache
    ensures buffer.Valid() && buffer.data == old(buffer.data)
    ensures Leaves(Parse(old(buffer.Readable()), old(cache.argv)), ok, err, old(buffer.Readable()), buffer.Readable(),
                   cache.argc, old(cache.argv), cache.argv)
    ensures old(buffer.Readable()) != [] && old(buffer.Readable())[0] != 42 ==> !ok && err && buffer.Readable() == []
    ensures old(cache.argv) == [] ==> TakesShaped(old(buffer.Readable()), ok, cache.argv, buffer.Readable())
  {
    hide Parse, TakesShaped;
    ok, err := ParseStep(buffer, cache);
    Discards(old(buffer.Readable()), old(cache.argv));
    if old(cache.argv) == [] {
      LeavesShaped(old(buffer.Readable()), ok, err, buffer.Readable(), cache.argc, cache.argv);
    }
  }

  /** Where the bytes start with the literal shape of a command, that command is taken and nothing more. */
  ghost predicate TakesShaped(before: Bytes, ok: bool, argv: seq<Bytes>, after: Bytes) {
    forall c, n :: 0 <= n <= |before| && Fits(c) && Shape(before[..n], c) ==> ok && argv == c && after == before[n..]
  }

  lemma LeavesShaped(before: Bytes, ok: bool, err: bool, after: Bytes, argc: nat, argv: seq<Bytes>)
    requires Leaves(Parse(before, []), ok, err, before, after, argc, [], argv)
    ensures TakesShaped(before, ok, argv, after)
  {
    hide Parse, Shape, Fits;
    forall c, n | 0 <= n <= |before| && Fits(c) && Shape(before[..n], c)
      ensures ok && argv == c && after == before[n..]
    {
      ShapeAccepted(before[..n], c, before[n..]);
      assert before[..n] + before[n..] == before;
    }
  }

  lemma Discards(s: Bytes, argv: seq<Bytes>)
    ensures s != [] && s[0] != 42 ==> Parse(s, argv) == Discard
  {
    hide ReadHeader, ReadArgs;
  }

  /** The body of the parser. */
  method ParseStep(buffer: Buffer, cache: CommandCache) returns (ok: bool, err: bool)
    requires buffer.Valid()
    modifies buffer, buffer.data, cache
    ensures buffer.Valid() && buffer.data == old(buffer.data)
    ensures Leaves(Parse(old(buffer.Readable()), old(cache.argv)), ok, err, old(buffer.Readable()), buffer.Readable(),
                   cache.argc, old(cache.argv), cache.argv)
  {
    hide ReadArgs, StrToLL, ReadLong, Take;
    ok, err := false, false;
    ghost var r := buffer.Readable();
    if buffer.writer == buffer.reader { return; }
    var c := buffer.ReadableCharacterAt(0);
    if c != STAR {
      err := true;
      buffer.Reset();
      return;
    }
    var n, step := buffer.ReadLongFrom(1);
    if step == 0 {
      err := true;
      cache.Clear();
      return;
    }
    cache.argc := ToUnsigned(n);
    var cur := 1 + step;
    var crlf := buffer.ReadStdStringFrom(cur, 2);
    if crlf != CRLF {
      err := buffer.writer - buffer.reader - cur >= 2;
      cache.Clear();
      return;
    }
    cur := cur + 2;
    assert ReadHeader(r) == Count(n, cur);
    var end, next := ParseArgs(buffer, cur, n, cache);
    if end.RanOut? { return; }
    if end.Broken? {
      err := end.err;
      cache.Clear();
      return;
    }
    cache.inited := true;
    if cache.argc != |cache.argv| {
      cache.Clear();
      return;
    }
    buffer.ReaderIdxForward(next);
    ok := true;
  }

  // ----- The chunked loader -----

  function Concat(chunks: seq<Bytes>): Bytes {
    if chunks == [] then [] else chunks[0] + Concat(chunks[1..])
  }

  ghost predicate AllFit(cmds: seq<seq<Bytes>>) {
    forall i :: 0 <= i < |cmds| ==> Fits(cmds[i])
  }

  /** The parser on a buffer that holds a first part of a command stream: it takes the next command
      exactly when that is complete and the cache is clean; otherwise it consumes nothing, and a
      complete command behind a stale cache costs one call. */
  lemma ParseStream(pending: seq<seq<Bytes>>, readable: Bytes, future: Bytes, argv: seq<Bytes>)
    requires AllFit(pending) && EncodeAll(pending) == readable + future
    ensures var r := Parse(readable, argv);
      if readable == [] then r == Empty
      else
        && pending != []
        && var x := Encode(pending[0]);
        if |x| <= |readable| then
          && r == (if argv == [] then Accept(pending[0], |x|) else Refuse(false))
          && EncodeAll(pending[1..]) == readable[|x|..] + future
        else future != [] && (r.Refuse? || r.KeepStale?)
  {
    hide ReadHeader;
    hide ReadArgs;
    hide Encode;
    if readable != [] {
      var x, tail := Encode(pending[0]), EncodeAll(pending[1..]);
      assert x + tail == readable + future;
      if |x| <= |readable| {
        var rest := readable[|x|..];
        assert readable == x + rest by { assert (x + tail)[..|x|] == x; }
        assert tail == rest + future by { assert (x + tail)[|x|..] == tail; }
        ParseComplete(pending[0], rest, argv);
      } else {
        assert readable < x by { assert (x + tail)[..|readable|] == readable; }
        ParsePrefix(pending[0], readable, argv);
      }
    }
  }

  /** The parse loop behind each chunk and at the end of the file. */
  method Drain(buffer: Buffer, cache: CommandCache, ghost pending: seq<seq<Bytes>>, ghost future: Bytes)
    returns (got: seq<seq<Bytes>>)
    requires buffer.Valid() && AllFit(pending) && EncodeAll(pending) == buffer.Readable() + future
    requires buffer.Readable() == [] ==> cache.argv == []
    modifies buffer, buffer.data, cache
    ensures buffer.Valid() && buffer.data == old(buffer.data)
    ensures got <= pending && EncodeAll(pending[|got|..]) == buffer.Readable() + future
    ensures buffer.Readable() == [] ==> cache.argv == []
    ensures future == [] ==> cache.argv == []
    ensures future == [] && old(cache.argv) == [] ==> buffer.Readable() == []
  {
    hide Parse, Encode, EncodeAll, Fits;
    got := [];
    var ok := true;
    while ok
      invariant buffer.Valid() && buffer.data == old(buffer.data)
      invariant got <= pending && EncodeAll(pending[|got|..]) == buffer.Readable() + future
      invariant buffer.Readable() == [] ==> cache.argv == []
      invariant !ok && future == [] ==> cache.argv == []
      invariant old(cache.argv) == [] && ok ==> cache.argv == []
      invariant old(cache.argv) == [] && !ok && future == [] ==> buffer.Readable() == []
      decreases if ok then 1 else 0, |pending| - |got|
    {
      ParseStream(pending[|got|..], buffer.Readable(), future, cache.argv);
      var err;
      ok, err := TryParseFromBuffer(buffer, cache);
      if ok {
        assert pending[|got|..][1..] == pending[|got| + 1..];
        got := got + [cache.argv];
        cache.Clear();
      }
    }
  }

  method DrainBehind(buffer: Buffer, cache: CommandCache, before: seq<seq<Bytes>>, ghost cmds: seq<seq<Bytes>>, ghost future: Bytes)
    returns (delivered: seq<seq<Bytes>>)
    requires buffer.Valid() && AllFit(cmds) && before <= cmds
    requires EncodeAll(cmds[|before|..]) == buffer.Readable() + future
    requires buffer.Readable() == [] ==> cache.argv == []
    modifies buffer, buffer.data, cache
    ensures buffer.Valid() && buffer.data == old(buffer.data)
    ensures delivered <= cmds && EncodeAll(cmds[|delivered|..]) == buffer.Readable() + future
    ensures buffer.Readable() == [] ==> cache.argv == []
    ensures future == [] ==> cache.argv == []
    ensures future == [] && old(cache.argv) == [] ==> buffer.Readable() == []
  {
    hide Encode;
    hide Fits;
    ghost var pending := cmds[|before|..];
    var got := Drain(buffer, cache, pending, future);
    assert pending[|got|..] == cmds[|before| + |got|..];
    delivered := before + got;
  }

  /** `CommonOperation`: whatever the cut into chunks, exactly the written commands are delivered,
      in order. */
  method CommonOperation(chunks: seq<Bytes>, ghost cmds: seq<seq<Bytes>>) returns (delivered: seq<seq<Bytes>>)
    requires AllFit(cmds) && Concat(chunks) == EncodeAll(cmds)
    requires forall i :: 0 <= i < |chunks| ==> chunks[i] != []
    ensures delivered == cmds
  {
    hide Encode;
    hide Fits;
    delivered := [];
    var buffer := new Buffer();
    var cache := new CommandCache();
    for i := 0 to |chunks|
      invariant buffer.Valid() && fresh(buffer) && fresh(buffer.data) && fresh(cache)
      invariant delivered <= cmds
      invariant EncodeAll(cmds[|delivered|..]) == buffer.Readable() + Concat(chunks[i..])
      invariant buffer.Readable() == [] ==> cache.argv == []
      invariant i == |chunks| ==> cache.argv == []
    {
      ghost var future := Concat(chunks[i + 1..]);
      assert chunks[i..][1..] == chunks[i + 1..];
      assert buffer.Readable() + chunks[i] + future == buffer.Readable() + Concat(chunks[i..]);
      buffer.Append(chunks[i]);
      delivered := DrainBehind(buffer, cache, delivered, cmds, future);
    }
    if buffer.writer - buffer.reader > 0 {
      delivered := DrainBehind(buffer, cache, delivered, cmds, []);
    }
    assert buffer.Readable() == [];
    NothingLeft(cmds[|delivered|..]);
  }

  lemma NothingLeft(cmds: seq<seq<Bytes>>)
    requires EncodeAll(cmds) == []
    ensures cmds == []
  {
  }
}
