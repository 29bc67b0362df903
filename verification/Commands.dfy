/** The mutating commands: syntax, effect, what is logged, and replay of the log. */
module Commands {
  import opened Wrappers
  import opened ByteStrings
  import opened Decimal
  import opened Store

  type Argv = seq<Bytes>

  datatype Op =
    | SetOp | DelOp | IncrOp | DecrOp | IncrByOp | DecrByOp | AppendOp
    | LPushOp | RPushOp | LPopOp | RPopOp | LSetOp
    | HSetOp | HDelOp | SAddOp | SRemOp

  function Ascii(s: string): Bytes
    requires forall i :: 0 <= i < |s| ==> s[i] < 128 as char
  {
    seq(|s|, i requires 0 <= i < |s| => s[i] as int)
  }

  function Word(op: Op): Bytes {
    match op
    case SetOp => Ascii("set")
    case DelOp => Ascii("del")
    case IncrOp => Ascii("incr")
    case DecrOp => Ascii("decr")
    case IncrByOp => Ascii("incrby")
    case DecrByOp => Ascii("decrby")
    case AppendOp => Ascii("append")
    case LPushOp => Ascii("lpush")
    case RPushOp => Ascii("rpush")
    case LPopOp => Ascii("lpop")
    case RPopOp => Ascii("rpop")
    case LSetOp => Ascii("lsetindex")
    case HSetOp => Ascii("hset")
    case HDelOp => Ascii("hdel")
    case SAddOp => Ascii("sadd")
    case SRemOp => Ascii("srem")
  }

  const OPS: seq<Op> := [SetOp, DelOp, IncrOp, DecrOp, IncrByOp, DecrByOp, AppendOp,
                         LPushOp, RPushOp, LPopOp, RPopOp, LSetOp, HSetOp, HDelOp, SAddOp, SRemOp]

  function FindOp(w: Bytes, ops: seq<Op>): (r: Option<Op>)
    ensures r.Some? ==> r.value in ops && Word(r.value) == w
    ensures r.None? ==> forall op :: op in ops ==> Word(op) != w
  {
    if ops == [] then None else if Word(ops[0]) == w then Some(ops[0]) else FindOp(w, ops[1..])
  }

  /** The modelled part of the command table. */
  function OpOf(w: Bytes): (r: Option<Op>)
    ensures r.Some? ==> Word(r.value) == w
  {
    FindOp(w, OPS)
  }

  /** No two commands share a name. */
  lemma WordInjective(a: Op, b: Op)
    requires Word(a) == Word(b)
    ensures a == b
  {
    var x, y := Word(a), Word(b);
    assert |x| == |y| && x[0] == y[0] && x[1] == y[1] && x[2] == y[2];
  }

  lemma OpOfWord(op: Op)
    ensures OpOf(Word(op)) == Some(op)
  {
    assert op in OPS;
    WordInjective(op, OpOf(Word(op)).value);
  }

  function Lower(w: Bytes): (r: Bytes) {
    seq(|w|, i requires 0 <= i < |w| => if 65 <= w[i] <= 90 then w[i] + 32 else w[i])
  }

  /** The same letter, in lower or in upper case, or the same byte. */
  predicate SameLetter(a: byte, b: byte) {
    a == b || (65 <= a <= 90 && b == a + 32) || (97 <= a <= 122 && b == a - 32)
  }

  predicate Recased(x: Bytes, y: Bytes) { |x| == |y| && forall i :: 0 <= i < |x| ==> SameLetter(x[i], y[i]) }

  /** Lower case identifies exactly the strings that differ in case alone. */
  lemma LowerIff(x: Bytes, y: Bytes)
    ensures Lower(x) == Lower(y) <==> Recased(x, y)
  {
    if Recased(x, y) {
      assert forall i :: 0 <= i < |x| ==> SameLetter(x[i], y[i]);
      assert Lower(x) == Lower(y);
    }
    if Lower(x) == Lower(y) {
      forall i | 0 <= i < |x| ensures SameLetter(x[i], y[i]) { assert Lower(x)[i] == Lower(y)[i]; }
    }
  }

  /** Every casing of its name, and nothing else, is recognized as a command. */
  lemma AnyCasing(op: Op, w: Bytes)
    ensures OpOf(Lower(w)) == Some(op) <==> Recased(w, Word(op))
  {
    OpOfWord(op);
    LowerWord(op);
    LowerIff(w, Word(op));
    hide OpOf, Word, Lower;
  }

  /** `CheckSyntax` on an argument count: -1 operands means at least one, -1 keys at least one. */
  function CheckSyntax(len: nat, keys: int, operands: int, even: bool): bool {
    if even && len % 2 != 0 then false
    else if keys == 0 then len == 1
    else if keys == 1 then (if operands == -1 then len >= 3 else len == operands + 2)
    else if keys == -1 then len >= 2
    else if keys == -2 then len >= 1
    else false
  }

  function Syntax(op: Op, len: nat): (ok: bool)
    ensures ok ==> len >= 2
    ensures op.HSetOp? ==> (ok <==> len >= 4 && len % 2 == 0)
  {
    match op
    case DelOp => CheckSyntax(len, -1, 0, false)
    case SetOp | IncrByOp | DecrByOp | AppendOp => CheckSyntax(len, 1, 1, false)
    case IncrOp | DecrOp | LPopOp | RPopOp => CheckSyntax(len, 1, 0, false)
    case LSetOp => CheckSyntax(len, 1, 2, false)
    case HSetOp => CheckSyntax(len, 1, -1, true)
    case LPushOp | RPushOp | HDelOp | SAddOp | SRemOp => CheckSyntax(len, 1, -1, false)
  }

  /** The amount of `incrby` and `decrby`. */
  function Amount(s: Bytes): (r: Option<int>)
    ensures r.Some? ==> 0 <= r.value <= INT64_MAX
  {
    var n := Canonical(s, INT64_MIN, INT64_MAX);
    if n.Some? && n.value < 0 then None else n
  }

  /** What a well-formed command with operands `args` does to the value of its key. */
  function Act(op: Op, v: Option<Value>, args: seq<Bytes>): Effect
    requires Syntax(op, |args| + 2)
  {
    match op
    case SetOp => Done(SetTo(args[0]))
    case DelOp => Effect(None, Ok, [])
    case IncrOp => IncrBy(v, 1)
    case DecrOp => DecrBy(v, 1)
    case IncrByOp => var n := Amount(args[0]); if n.None? then Refused(v, Fail) else IncrBy(v, n.value)
    case DecrByOp => var n := Amount(args[0]); if n.None? then Refused(v, Fail) else DecrBy(v, n.value)
    case AppendOp => AppendTo(v, args[0])
    case LPushOp => Push(v, args, true)
    case RPushOp => Push(v, args, false)
    case LPopOp => Pop(v, true)
    case RPopOp => Pop(v, false)
    case LSetOp =>
      var i := Canonical(args[0], INT32_MIN, INT32_MAX);
      if i.None? then Refused(v, Fail) else SetAt(v, i.value, args[1])
    case HSetOp => HashUpdate(v, args)
    case HDelOp => HashDel(v, args)
    case SAddOp => SetAdd(v, args)
    case SRemOp => SetRemove(v, args)
  }

  /** When a handler hands its command to the log. */
  predicate Logs(op: Op, e: Effect) {
    match op
    case SetOp | DelOp => true
    case LPopOp | RPopOp => e.code == Ok && e.popped != []
    case HDelOp | SRemOp => e.code != WrongType
    case SAddOp => e.code != WrongType && e.code != Fail
    case _ => e.code == Ok
  }

  function OpCode(argv: Argv): (r: Option<Op>)
    ensures r.Some? ==> |argv| >= 2 && Syntax(r.value, |argv|)
  {
    if argv == [] then None
    else
      var op := OpOf(Lower(argv[0]));
      if op.Some? && Syntax(op.value, |argv|) then op else None
  }

  /** The key of a command, as the key type's constructor cuts it. */
  function KeyOf(argv: Argv): Bytes
    requires |argv| >= 2
  {
    CStr(argv[1])
  }

  function DeleteAll(db: Db, keys: seq<Bytes>): Db {
    if keys == [] then db else DeleteAll(db, keys[..|keys| - 1]) - {CStr(keys[|keys| - 1])}
  }

  /** `del` removes exactly the keys named. */
  lemma {:induction false} DeleteAllIs(db: Db, keys: seq<Bytes>)
    ensures DeleteAll(db, keys) == db - Named(keys)
  {
    hide CStr;
    if keys != [] {
      var init, last := keys[..|keys| - 1], keys[|keys| - 1];
      assert keys == init + [last];
      DeleteAllIs(db, init);
      NamedSnoc(init, last);
      hide Named;
      assert db - Named(init) - {CStr(last)} == db - (Named(init) + {CStr(last)});
    }
  }

  function Logged(argv: Argv): Argv
    requires argv != []
  {
    argv[0 := Lower(argv[0])]
  }

  datatype Handled = Handled(db: Db, logged: bool)

  /** `Engine::HandleCommand`. */
  function Handle(argv: Argv, db: Db): (h: Handled)
    ensures h.logged ==> |argv| >= 2
  {
    var op := OpCode(argv);
    if op.None? then Handled(db, false)
    else if op.value.DelOp? then Handled(DeleteAll(db, argv[1..]), true)
    else
      var e := Act(op.value, Look(db, KeyOf(argv)), argv[2..]);
      Handled(Put(db, KeyOf(argv), e.after), Logs(op.value, e))
  }

  /** The store and everything handed to the log. */
  datatype State = State(db: Db, log: seq<Argv>)

  function Step(s: State, argv: Argv): State {
    var h := Handle(argv, s.db);
    State(h.db, if h.logged then s.log + [Logged(argv)] else s.log)
  }

  const EMPTY: State := State(map[], [])

  /** The commands run one after the other, on an empty store or on one that is there already. */
  function Run(cmds: seq<Argv>, from: State := EMPTY): State {
    if cmds == [] then from else Step(Run(cmds[..|cmds| - 1], from), cmds[|cmds| - 1])
  }

  /** `ReadFromScratch`: the store rebuilt from a log. */
  function Replay(log: seq<Argv>): Db {
    if log == [] then map[] else Handle(log[|log| - 1], Replay(log[..|log| - 1])).db
  }

  /** The command takes an empty string off a list. */
  predicate PopsEmpty(argv: Argv, db: Db) {
    var op := OpCode(argv);
    op.Some? && (op.value.LPopOp? || op.value.RPopOp?) &&
    var v := Look(db, KeyOf(argv));
    v.Some? && v.value.List? && v.value.items != [] && Pop(v, op.value.LPopOp?).popped == []
  }

  ghost predicate Consistent(s: State) { Replay(s.log) == s.db }

  lemma LowerTwice(argv: Argv)
    requires argv != []
    ensures OpCode(Logged(argv)) == OpCode(argv)
  {
    assert Lower(Lower(argv[0])) == Lower(argv[0]);
  }

  lemma HandleLogged(argv: Argv, db: Db)
    requires argv != []
    ensures Handle(Logged(argv), db) == Handle(argv, db)
  {
    hide Act;
    hide OpCode;
    LowerTwice(argv);
    if |argv| >= 2 {
      assert Logged(argv)[1..] == argv[1..] && Logged(argv)[2..] == argv[2..];
    }
  }

  /** Argument lists that differ in the case of the opcode alone do the same and are logged alike. */
  lemma CaseDoesNotMatter(x: Argv, y: Argv, db: Db)
    requires x != [] && |x| == |y| && Recased(x[0], y[0]) && forall i :: 1 <= i < |x| ==> x[i] == y[i]
    ensures Handle(x, db) == Handle(y, db) && Logged(x) == Logged(y)
  {
    hide OpOf, Act, Recased, Lower;
    LowerIff(x[0], y[0]);
    assert Logged(x) == Logged(y);
    if |x| >= 2 { assert x[1..] == y[1..] && x[2..] == y[2..]; }
  }

  /** A command that is not logged leaves its value alone, unless it pops an empty string. */
  lemma NotLoggedNotDone(op: Op, v: Option<Value>, args: seq<Bytes>)
    requires Syntax(op, |args| + 2) && !Logs(op, Act(op, v, args))
    ensures Act(op, v, args).after == v <==>
            !((op.LPopOp? || op.RPopOp?) && v.Some? && v.value.List? && v.value.items != [])
  {
  }

  lemma NotLogged(argv: Argv, db: Db)
    requires !Handle(argv, db).logged
    ensures Handle(argv, db).db == db <==> !PopsEmpty(argv, db)
  {
    var op := OpCode(argv);
    if op.Some? {
      NotLoggedNotDone(op.value, Look(db, KeyOf(argv)), argv[2..]);
      assert Look(Handle(argv, db).db, KeyOf(argv)) == Act(op.value, Look(db, KeyOf(argv)), argv[2..]).after;
      hide Act;
      hide OpCode;
    }
  }

  /** One step keeps the log sufficient exactly when it does not pop an empty string. */
  lemma LogStep(s: State, argv: Argv)
    requires Consistent(s)
    ensures Consistent(Step(s, argv)) <==> !PopsEmpty(argv, s.db)
  {
    hide Act;
    hide OpCode;
    var h := Handle(argv, s.db);
    if h.logged {
      HandleLogged(argv, s.db);
      var log := s.log + [Logged(argv)];
      assert log[..|log| - 1] == s.log;
      LoggedPopsSomething(argv, s.db);
    } else {
      NotLogged(argv, s.db);
    }
  }

  lemma LoggedPopsSomething(argv: Argv, db: Db)
    requires Handle(argv, db).logged
    ensures !PopsEmpty(argv, db)
  {
  }

  /** Every point of the run can be rebuilt from the log written up to it. */
  ghost predicate AlwaysConsistent(cmds: seq<Argv>, from: State := EMPTY) {
    forall i :: 0 <= i <= |cmds| ==> Consistent(Run(cmds[..i], from))
  }

  ghost predicate NeverPopsEmpty(cmds: seq<Argv>, from: State := EMPTY) {
    forall i :: 0 <= i < |cmds| ==> !PopsEmpty(cmds[i], Run(cmds[..i], from).db)
  }

  lemma AlwaysConsistentSnoc(init: seq<Argv>, last: Argv, from: State)
    ensures AlwaysConsistent(init + [last], from) <==> AlwaysConsistent(init, from) && Consistent(Run(init + [last], from))
  {
    hide Consistent, Run;
    var cmds := init + [last];
    assert cmds[..|cmds|] == cmds;
    assert forall i :: 0 <= i <= |init| ==> init[..i] == cmds[..i];
  }

  lemma NeverPopsEmptySnoc(init: seq<Argv>, last: Argv, from: State)
    ensures NeverPopsEmpty(init + [last], from) <==> NeverPopsEmpty(init, from) && !PopsEmpty(last, Run(init, from).db)
  {
    hide PopsEmpty, Run;
    var cmds := init + [last];
    assert cmds[|init|] == last && cmds[..|init|] == init;
    assert forall i :: 0 <= i < |init| ==> init[..i] == cmds[..i] && init[i] == cmds[i];
  }

  /** Replaying the log rebuilds the store at every point of a run exactly when no step of the run
      pops an empty string; the run may start from any store that its log rebuilds. */
  lemma {:induction false} LogReplays(cmds: seq<Argv>, from: State := EMPTY)
    requires Consistent(from)
    ensures AlwaysConsistent(cmds, from) <==> NeverPopsEmpty(cmds, from)
  {
    hide PopsEmpty, Step, NeverPopsEmpty;
    if cmds == [] {
      EmptyRun(from);
    } else {
      var init, last := cmds[..|cmds| - 1], cmds[|cmds| - 1];
      assert cmds == init + [last];
      LogReplays(init, from);
      AlwaysConsistentSnoc(init, last, from);
      NeverPopsEmptySnoc(init, last, from);
      if AlwaysConsistent(init, from) {
        assert init[..|init|] == init;
        LogStep(Run(init, from), last);
      }
      hide AlwaysConsistent, Consistent;
    }
  }

  lemma EmptyConsistent()
    ensures Consistent(EMPTY)
  {
  }

  lemma EmptyRun(from: State)
    requires Consistent(from)
    ensures AlwaysConsistent([], from) && NeverPopsEmpty([], from)
  {
  }

  // ----- Commands written in the log's own form -----

  function Cmd(op: Op, key: Bytes, args: seq<Bytes>): (c: Argv)
    ensures |c| == |args| + 2 && c[2..] == args
  {
    [Word(op), key] + args
  }

  lemma LowerWord(op: Op)
    ensures Lower(Word(op)) == Word(op)
  {
    hide Word;
    SmallLetters(op);
    assert forall i :: 0 <= i < |Word(op)| ==> !(65 <= Word(op)[i] <= 90);
  }

  lemma SmallLetters(op: Op)
    ensures forall i :: 0 <= i < |Word(op)| ==> 97 <= Word(op)[i] <= 122
  {
  }

  lemma OpCodeOfCmd(op: Op, key: Bytes, args: seq<Bytes>)
    ensures OpCode(Cmd(op, key, args)) == if Syntax(op, |args| + 2) then Some(op) else None
    ensures Logged(Cmd(op, key, args)) == Cmd(op, key, args)
  {
    hide Word, OpOf, Syntax;
    LowerWord(op);
    OpOfWord(op);
  }

  lemma HandleCmd(op: Op, key: Bytes, args: seq<Bytes>, db: Db)
    requires NulFree(key) && !op.DelOp?
    ensures Handle(Cmd(op, key, args), db) ==
            if !Syntax(op, |args| + 2) then Handled(db, false)
            else var e := Act(op, Look(db, key), args); Handled(Put(db, key, e.after), Logs(op, e))
  {
    hide OpCode, Act, Syntax;
    OpCodeOfCmd(op, key, args);
  }

  lemma RunSnoc(init: seq<Argv>, last: Argv, from: State := EMPTY)
    ensures Run(init + [last], from) == Step(Run(init, from), last)
  {
    assert (init + [last])[..|init|] == init;
  }

  lemma ReplaySnoc(init: seq<Argv>, last: Argv)
    ensures Replay(init + [last]) == Handle(last, Replay(init)).db
  {
    assert (init + [last])[..|init|] == init;
  }

  lemma PushStep(s: State, key: Bytes, x: Bytes)
    requires NulFree(key) && key !in s.db
    ensures Step(s, Cmd(RPushOp, key, [x])) == State(s.db[key := List([x])], s.log + [Cmd(RPushOp, key, [x])])
  {
    hide Handle, Cmd;
    HandleCmd(RPushOp, key, [x], s.db);
    OpCodeOfCmd(RPushOp, key, [x]);
    PushRight([], [x]);
    assert [] + [x] == [x];
  }

  lemma EmptyPopStep(s: State, key: Bytes, op: Op)
    requires NulFree(key) && Look(s.db, key) == Some(List([[]])) && (op.LPopOp? || op.RPopOp?)
    ensures Step(s, Cmd(op, key, [])) == State(s.db[key := List([])], s.log)
  {
    hide Handle, Cmd;
    HandleCmd(op, key, [], s.db);
    var one: seq<Bytes> := [[]];
    assert one[1..] == [] && one[..0] == [];
  }

  /** Behind any run, pushing an empty string to a fresh key and popping it: the pop is not logged,
      so the replayed list still has the string. */
  lemma EmptyPopDiverges(cmds: seq<Argv>, key: Bytes, op: Op)
    requires NulFree(key) && key !in Run(cmds).db && Consistent(Run(cmds)) && (op.LPopOp? || op.RPopOp?)
    ensures var s := Run(cmds + [Cmd(RPushOp, key, [[]])] + [Cmd(op, key, [])]);
            s.db == Run(cmds).db[key := List([])] && Replay(s.log) == Run(cmds).db[key := List([[]])]
  {
    hide Handle, Run, Replay, Cmd, Step, PopsEmpty;
    var push := Cmd(RPushOp, key, [[]]);
    RunSnoc(cmds, push);
    RunSnoc(cmds + [push], Cmd(op, key, []));
    PushStep(Run(cmds), key, []);
    EmptyPopStep(Run(cmds + [push]), key, op);
    LogStep(Run(cmds), push);
    NoPop(RPushOp, key, [[]], Run(cmds).db);
  }

  lemma NoPop(op: Op, key: Bytes, args: seq<Bytes>, db: Db)
    requires !op.LPopOp? && !op.RPopOp?
    ensures !PopsEmpty(Cmd(op, key, args), db)
  {
    hide OpCode;
    OpCodeOfCmd(op, key, args);
  }
}
