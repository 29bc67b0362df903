/** `RemoveRedundancy`: the log rewritten with at most one command per key. */
module Compaction {
  import opened Wrappers
  import opened ByteStrings
  import opened Decimal
  import opened Store
  import opened Commands

  // ----- Replay key by key -----

  /** What a command does to the value of its key. */
  function KeyStep(argv: Argv, v: Option<Value>): Option<Value> {
    var op := OpCode(argv);
    if op.None? then v else Act(op.value, v, argv[2..]).after
  }

  function ReplayKey(cmds: seq<Argv>): Option<Value> {
    if cmds == [] then None else KeyStep(cmds[|cmds| - 1], ReplayKey(cmds[..|cmds| - 1]))
  }

  /** The commands of one key, in order. */
  function Group(log: seq<Argv>, key: Bytes): (g: seq<Argv>)
    ensures forall c :: c in g <==> c in log && |c| >= 2 && c[1] == key
  {
    if log == [] then []
    else
      var g, last := Group(log[..|log| - 1], key), log[|log| - 1];
      if |last| >= 2 && last[1] == key then g + [last] else g
  }

  /** The command touches one key only, whose name survives the key constructor. */
  predicate Single(argv: Argv) {
    |argv| >= 2 && NulFree(argv[1]) && (OpCode(argv) == Some(DelOp) ==> |argv| == 2)
  }

  ghost predicate AllSingle(log: seq<Argv>) { forall c :: c in log ==> Single(c) }

  lemma HandleSingle(argv: Argv, db: Db, key: Bytes)
    requires Single(argv)
    ensures Look(Handle(argv, db).db, key) == if key == argv[1] then KeyStep(argv, Look(db, key)) else Look(db, key)
  {
    hide OpCode, Act;
    var op := OpCode(argv);
    if op == Some(DelOp) {
      assert DeleteAll(db, argv[1..]) == db - {argv[1]} by {
        var keys := argv[1..];
        assert |keys| == 1 && keys[..0] == [];
      }
      DelForgets(Look(db, key), argv[2..]);
    }
  }

  lemma DelForgets(v: Option<Value>, args: seq<Bytes>)
    ensures Act(DelOp, v, args).after == None
  {
  }

  lemma GroupSnoc(init: seq<Argv>, last: Argv, key: Bytes)
    ensures Group(init + [last], key) == Group(init, key) + if |last| >= 2 && last[1] == key then [last] else []
  {
    assert (init + [last])[..|init|] == init;
  }

  lemma ReplayKeySnoc(init: seq<Argv>, last: Argv)
    ensures ReplayKey(init + [last]) == KeyStep(last, ReplayKey(init))
  {
    assert (init + [last])[..|init|] == init;
  }

  /** The value a log leaves under a key depends on that key's commands alone. */
  lemma {:induction false} Local(log: seq<Argv>, key: Bytes)
    requires AllSingle(log)
    ensures Look(Replay(log), key) == ReplayKey(Group(log, key))
  {
    hide Handle, KeyStep, Single;
    if log != [] {
      var init, last := log[..|log| - 1], log[|log| - 1];
      assert log == init + [last];
      Local(init, key);
      assert Single(last);
      HandleSingle(last, Replay(init), key);
      SingleLength(last);
      GroupSnoc(init, last, key);
      ReplaySnoc(init, last);
      ReplayKeySnoc(Group(init, key), last);
    }
  }

  lemma SingleLength(argv: Argv)
    requires Single(argv)
    ensures |argv| >= 2
  {
  }

  /** What any well-formed command leaves under a key: `del` may name several. */
  lemma HandleAt(argv: Argv, db: Db, key: Bytes)
    requires Formed(argv)
    ensures Look(Handle(argv, db).db, key) ==
            if key == argv[1] then KeyStep(argv, Look(db, key))
            else if Names(argv[1..], key) && Head(argv) == Word(DelOp) then None
            else Look(db, key)
  {
    hide Act, OpOf, DeleteAll, Word;
    FormedOp(argv);
    if OpCode(argv) == Some(DelOp) {
      DeleteAllIs(db, argv[1..]);
      DelForgets(Look(db, key), argv[2..]);
      NamedIs(argv[1..], key);
      assert argv[1..][0] == argv[1];
    } else {
      NotDel(argv);
    }
  }

  lemma NotDel(argv: Argv)
    requires Formed(argv) && OpCode(argv) != Some(DelOp)
    ensures Head(argv) != Word(DelOp)
  {
    hide Word, OpOf, Act;
    OpOfWord(DelOp);
    FormedOp(argv);
  }

  predicate Names(keys: seq<Bytes>, key: Bytes) { exists i :: 0 <= i < |keys| && keys[i] == key }

  lemma NamedIs(keys: seq<Bytes>, key: Bytes)
    requires forall i :: 0 <= i < |keys| ==> NulFree(keys[i])
    ensures key in Store.Named(keys) <==> Names(keys, key)
  {
    if Names(keys, key) {
      var i :| 0 <= i < |keys| && keys[i] == key;
      assert CStr(keys[i]) == key;
    }
  }

  // ----- Logs the compactor is meant for -----

  /** A collection command without operands, which the compactor writes for an empty collection and
      replay refuses. */
  predicate Bare(op: Op, len: nat) {
    len == 2 && (op.LPushOp? || op.RPushOp? || op.HSetOp? || op.HDelOp? || op.SAddOp? || op.SRemOp?)
  }

  /** A known command in lower case with the right number of arguments, or none, and NUL-free keys. */
  ghost predicate Formed(argv: Argv) {
    |argv| >= 2 && NulFree(argv[1]) &&
    var op := OpOf(argv[0]);
    && op.Some? && (Syntax(op.value, |argv|) || Bare(op.value, |argv|))
    && (op.value.DelOp? ==> forall i :: 1 <= i < |argv| ==> NulFree(argv[i]))
  }

  lemma FormedOp(argv: Argv)
    requires Formed(argv)
    ensures var op := OpOf(argv[0]).value; OpCode(argv) == if Bare(op, |argv|) then None else Some(op)
    ensures Head(argv) == Word(DelOp) <==> OpCode(argv) == Some(DelOp)
    ensures Head(argv) == Word(SetOp) <==> OpCode(argv) == Some(SetOp)
    ensures OpCode(argv) == Some(DelOp) ==> forall i :: 0 <= i < |argv[1..]| ==> NulFree(argv[1..][i])
  {
    hide Word, OpOf, Syntax, Bare;
    var op := OpOf(argv[0]).value;
    LowerWord(op);
    OpOfWord(DelOp);
    OpOfWord(SetOp);
    SyntaxIsNotBare(op, |argv|);
    if OpCode(argv) == Some(DelOp) {
      forall i | 0 <= i < |argv[1..]| ensures NulFree(argv[1..][i]) { assert argv[1..][i] == argv[i + 1]; }
    }
  }

  lemma FormedLength(argv: Argv)
    requires Formed(argv)
    ensures |argv| >= 2
  {
  }

  /** Absent, or a collection with nothing in it. */
  predicate Gone(v: Option<Value>) {
    match v
    case None => true
    case Some(List(items)) => items == []
    case Some(Dict(m)) => m == map[]
    case Some(Set(x)) => x == {}
    case Some(_) => false
  }

  /** The command succeeds on `v`, or takes from a missing key, or has no operands and nothing to lose. */
  ghost predicate CleanCmd(argv: Argv, v: Option<Value>) {
    Formed(argv) &&
    var op := OpOf(argv[0]).value;
    if Bare(op, |argv|) then Gone(v)
    else
      match op
      case SetOp | DelOp => true
      case HDelOp | SRemOp => v.None? || Act(op, v, argv[2..]).code == Ok
      case LPopOp | RPopOp => v.Some? && v.value.List? && v.value.items != []
      case _ => Act(op, v, argv[2..]).code == Ok
  }

  /** Every command is clean on the store that the commands before it leave. */
  ghost predicate Clean(log: seq<Argv>) {
    log != [] ==>
      var init, last := log[..|log| - 1], log[|log| - 1];
      Clean(init) && |last| >= 2 && CleanCmd(last, Look(Replay(init), last[1]))
  }

  /** The further keys of a `del`, which the compactor does not look at, have nothing to lose. */
  ghost predicate Harmless(argv: Argv, db: Db) {
    |argv| >= 2 && argv[0] == Word(DelOp) ==>
      forall i :: 2 <= i < |argv| ==> argv[i] == argv[1] || Gone(Look(db, argv[i]))
  }

  ghost predicate AllHarmless(log: seq<Argv>) {
    forall i :: 0 <= i < |log| ==> Harmless(log[i], Replay(log[..i]))
  }

  lemma AllHarmlessSnoc(init: seq<Argv>, last: Argv)
    ensures AllHarmless(init + [last]) <==> AllHarmless(init) && Harmless(last, Replay(init))
  {
    hide Harmless, Replay;
    var log := init + [last];
    assert log[|init|] == last && log[..|init|] == init;
    assert forall i :: 0 <= i < |init| ==> init[..i] == log[..i] && init[i] == log[i];
  }

  lemma {:induction false} CleanForms(log: seq<Argv>)
    requires Clean(log)
    ensures forall c :: c in log ==> Formed(c)
  {
    hide Formed, Replay, Act;
    if log != [] {
      CleanForms(log[..|log| - 1]);
      assert log == log[..|log| - 1] + [log[|log| - 1]];
    }
  }

  // ----- The queue of commands that still count -----

  function Head(argv: Argv): Bytes { if argv == [] then [] else argv[0] }

  function Queued(q: seq<Argv>, cmd: Argv): seq<Argv> {
    if Head(cmd) == Word(DelOp) then []
    else if Head(cmd) == Word(SetOp) then [cmd]
    else q + [cmd]
  }

  function Sequential(cmds: seq<Argv>): seq<Argv> {
    if cmds == [] then [] else Queued(Sequential(cmds[..|cmds| - 1]), cmds[|cmds| - 1])
  }

  /** No `del`, and `set` only in front. */
  ghost predicate Tidy(q: seq<Argv>) {
    forall i :: 0 <= i < |q| ==> Head(q[i]) != Word(DelOp) && (i > 0 ==> Head(q[i]) != Word(SetOp))
  }

  lemma SetDelForget(argv: Argv, v: Option<Value>, w: Option<Value>)
    requires Formed(argv) && (Head(argv) == Word(DelOp) || Head(argv) == Word(SetOp))
    ensures KeyStep(argv, v) == KeyStep(argv, w) && (Head(argv) == Word(DelOp) ==> KeyStep(argv, v) == None)
  {
    hide OpCode, OpOf, Word, Formed;
    FormedOp(argv);
  }

  lemma ReplayOne(cmd: Argv)
    ensures ReplayKey([cmd]) == KeyStep(cmd, None)
  {
    hide KeyStep;
    var none: seq<Argv> := [];
    assert [cmd][..0] == none && ReplayKey(none) == None;
  }

  /** Dropping everything in front of the last `set` or `del` of a key changes nothing. */
  lemma {:induction false} SequentialReplays(cmds: seq<Argv>)
    requires forall c :: c in cmds ==> Formed(c)
    ensures ReplayKey(Sequential(cmds)) == ReplayKey(cmds)
  {
    hide Formed, KeyStep, Head, Word;
    if cmds != [] {
      var init, last := cmds[..|cmds| - 1], cmds[|cmds| - 1];
      SequentialReplays(init);
      var q := Sequential(init);
      if Head(last) == Word(DelOp) || Head(last) == Word(SetOp) {
        SetDelForget(last, ReplayKey(init), None);
        ReplayOne(last);
      }
      assert (q + [last])[..|q|] == q;
    }
  }

  lemma {:induction false} SequentialTidy(cmds: seq<Argv>)
    ensures Tidy(Sequential(cmds))
  {
    hide Head, Word;
    DelIsNotSet();
    if cmds != [] { SequentialTidy(cmds[..|cmds| - 1]); }
  }

  lemma DelIsNotSet()
    ensures Word(DelOp) != Word(SetOp)
  {
    OpOfWord(DelOp);
    OpOfWord(SetOp);
  }

  // ----- Simulation of the queue -----

  datatype Kind = ListKind | HashKind | StringKind | IntegerKind | SetKind | OtherKind

  /** `aux_list`, `aux_hash`, `aux_uset`, `aux_string`, `aux_int64` and `op_type`. */
  datatype Sim = Sim(list: seq<Bytes>, dict: map<Bytes, Bytes>, members: set<Bytes>, text: Bytes, number: int, kind: Option<Kind>)

  const START: Sim := Sim([], map[], {}, [], 0, None)

  /** `stoll` on an operand. */
  function Operand(argv: Argv): Option<int> {
    if |argv| < 3 then None
    else
      var sc := ScanInt(argv[2]);
      if sc.step > 0 && INT64_MIN <= sc.value <= INT64_MAX then Some(sc.value) else None
  }

  /** `stoul` on an operand: a sign is accepted and wraps around. */
  function Index(argv: Argv): Option<int> {
    if |argv| < 3 then None
    else
      var sc := ScanInt(argv[2]);
      if sc.step == 0 then None else Some(if sc.value < 0 then sc.value + 0x1_0000_0000_0000_0000 else sc.value)
  }

  /** Arithmetic on the string buffer; nothing happens if it holds no number. */
  function AddTo(s: Sim, amount: Option<int>, sign: int): Option<Sim> {
    var n := Canonical(s.text, INT64_MIN, INT64_MAX);
    var number := if n.Some? then n.value else s.number;
    if n.None? && s.text != [] then Some(s.(kind := Some(IntegerKind)))
    else if amount.None? then None
    else
      var sum := number + sign * amount.value;
      if INT64_MIN <= sum <= INT64_MAX then Some(s.(text := Dec(sum), number := number, kind := Some(IntegerKind)))
      else None
  }

  /** One command; `None` where the code's behaviour is undefined. */
  function SimStep(s: Sim, argv: Argv, alone: bool): Option<Sim> {
    var op := OpOf(Head(argv));
    if |argv| < 2 || op.None? then None
    else
      var args := argv[2..];
      match op.value
      case LPushOp => Some(s.(list := PushAll(s.list, args, true), kind := Some(ListKind)))
      case RPushOp => Some(s.(list := PushAll(s.list, args, false), kind := Some(ListKind)))
      case LPopOp => if s.list == [] then None else Some(s.(list := s.list[1..], kind := Some(ListKind)))
      case RPopOp => if s.list == [] then None else Some(s.(list := s.list[..|s.list| - 1], kind := Some(ListKind)))
      case LSetOp =>
        var i := Index(argv);
        if |argv| < 4 || i.None? || !(0 <= i.value < |s.list|) then None
        else Some(s.(list := s.list[i.value := argv[3]], kind := Some(ListKind)))
      case HSetOp => if |args| % 2 != 0 then None else Some(s.(dict := UpdateAll(s.dict, args), kind := Some(HashKind)))
      case HDelOp => Some(s.(dict := s.dict - Range(args), kind := Some(HashKind)))
      case SAddOp => Some(s.(members := s.members + Range(args), kind := Some(SetKind)))
      case SRemOp => Some(s.(members := s.members - Range(args), kind := Some(SetKind)))
      case AppendOp => if args == [] then None else Some(s.(text := s.text + args[0], kind := Some(StringKind)))
      case IncrOp => AddTo(s, Some(1), 1)
      case DecrOp => AddTo(s, Some(1), -1)
      case IncrByOp => AddTo(s, Operand(argv), 1)
      case DecrByOp => AddTo(s, Operand(argv), -1)
      case SetOp =>
        if alone then Some(s.(kind := Some(OtherKind)))
        else if args == [] then None
        else Some(s.(text := args[0], kind := Some(OtherKind)))
      case DelOp => None
  }

  /** The first `n` commands of the queue. */
  function Simulate(q: seq<Argv>, n: nat): Option<Sim>
    requires n <= |q|
  {
    if n == 0 then Some(START)
    else
      var s := Simulate(q, n - 1);
      if s.None? then None else SimStep(s.value, q[n - 1], |q| == n)
  }

  /** The whole queue, simulated as if more were to come. */
  function SimulateAll(q: seq<Argv>): Option<Sim> {
    if q == [] then Some(START)
    else
      var s := SimulateAll(q[..|q| - 1]);
      if s.None? then None else SimStep(s.value, q[|q| - 1], false)
  }

  lemma {:induction false} SimulatePrefix(q: seq<Argv>, n: nat)
    requires n < |q|
    ensures Simulate(q, n) == SimulateAll(q[..n])
  {
    hide SimStep;
    if n > 0 {
      SimulatePrefix(q, n - 1);
      assert q[..n][..n - 1] == q[..n - 1];
    }
  }

  /** `set` on its own, which is kept as it is. */
  predicate SetAlone(q: seq<Argv>) { |q| == 1 && Head(q[0]) == Word(SetOp) }

  lemma AloneFront(q: seq<Argv>)
    requires SetAlone(q)
    ensures |q| == 1 && Head(q[0]) == Word(SetOp)
  {
  }

  lemma SimStepAlone(s: Sim, argv: Argv)
    requires Head(argv) != Word(SetOp)
    ensures SimStep(s, argv, true) == SimStep(s, argv, false)
    ensures var s' := SimStep(s, argv, true); s'.Some? ==> s'.value.kind.Some? && s'.value.kind != Some(OtherKind)
  {
    hide Word, OpOf, PushAll, UpdateAll, Range, Canonical, Operand, Index, Dec;
  }

  lemma SimulateWhole(q: seq<Argv>)
    requires q != [] && Tidy(q) && !SetAlone(q)
    ensures Simulate(q, |q|) == SimulateAll(q)
    ensures var s := Simulate(q, |q|); s.Some? ==> s.value.kind.Some? && s.value.kind != Some(OtherKind)
  {
    hide SimStep, Word, Head;
    var n := |q| - 1;
    SimulatePrefix(q, n);
    if SimulateAll(q[..n]).Some? { SimStepAlone(SimulateAll(q[..n]).value, q[n]); }
  }

  lemma SimulateAlone(q: seq<Argv>)
    requires SetAlone(q) && Formed(q[0])
    ensures Simulate(q, 1) == Some(START.(kind := Some(OtherKind)))
    ensures |q[0]| == 3 && SimulateAll(q) == Some(START.(text := q[0][2], kind := Some(OtherKind)))
  {
    hide Word, OpOf;
    OpOfWord(SetOp);
    assert q[..0] == [];
    assert Simulate(q, 0) == Some(START) && SimulateAll([]) == Some(START);
    assert q[0][2..][0] == q[0][2];
  }

  /** The simulated buffers hold the value that replay gives. */
  ghost predicate Coupled(s: Sim, v: Option<Value>) {
    if Gone(v) then
      s == START.(kind := s.kind) &&
      (s.kind == None || s.kind == Some(ListKind) || s.kind == Some(HashKind) || s.kind == Some(SetKind))
    else
      match v.value
      case Int(n) => s.text == Dec(n) && (s.kind == Some(IntegerKind) || s.kind == Some(OtherKind))
      case Str(t) => s.text == t && (s.kind == Some(StringKind) || s.kind == Some(OtherKind))
      case List(items) => s == START.(list := items, kind := Some(ListKind))
      case Dict(m) => s == START.(dict := m, kind := Some(HashKind))
      case Set(x) => s == START.(members := x, kind := Some(SetKind))
  }

  lemma OperandIs(argv: Argv)
    requires |argv| >= 3
    ensures Amount(argv[2]).Some? ==> Operand(argv) == Amount(argv[2])
    ensures var i := Canonical(argv[2], INT32_MIN, INT32_MAX);
            i.Some? ==> Index(argv) == Some(if i.value >= 0 then i.value else i.value + 0x1_0000_0000_0000_0000)
  {
    var n := Canonical(argv[2], INT64_MIN, INT64_MAX);
    if n.Some? { CanonicalIff(argv[2], INT64_MIN, INT64_MAX, n.value); }
    var i := Canonical(argv[2], INT32_MIN, INT32_MAX);
    if i.Some? { CanonicalIff(argv[2], INT32_MIN, INT32_MAX, i.value); }
  }

  lemma AddKeeps(s: Sim, v: Option<Value>, amount: int)
    requires Coupled(s, v) && 0 <= amount <= INT64_MAX
    ensures IncrBy(v, amount).code == Ok ==>
              var s' := AddTo(s, Some(amount), 1); s'.Some? && Coupled(s'.value, IncrBy(v, amount).after)
    ensures DecrBy(v, amount).code == Ok ==>
              var s' := AddTo(s, Some(amount), -1); s'.Some? && Coupled(s'.value, DecrBy(v, amount).after)
  {
    hide Canonical, Dec;
    if v.Some? && v.value.Int? {
      CanonicalIff(s.text, INT64_MIN, INT64_MAX, v.value.n);
    } else if v.None? {
      NoNumber();
    }
  }

  lemma NoNumber()
    ensures Canonical([], INT64_MIN, INT64_MAX) == None
  {
  }

  /** A set command that more commands follow. */
  lemma SetKeeps(s: Sim, text: Bytes)
    ensures Coupled(s.(text := text, kind := Some(OtherKind)), Some(SetTo(text)))
  {
    hide Canonical, Dec;
    var n := Canonical(text, INT64_MIN, INT64_MAX);
    if n.Some? { CanonicalIff(text, INT64_MIN, INT64_MAX, n.value); }
  }

  /** A list index counted from the end. */
  predicate Negative(argv: Argv) {
    |argv| >= 3 && argv[0] == Word(LSetOp) &&
    var i := Canonical(argv[2], INT32_MIN, INT32_MAX);
    i.Some? && i.value < 0
  }

  ghost predicate NoNegative(q: seq<Argv>) { forall c :: c in q ==> !Negative(c) }

  ghost predicate Keeps(s: Sim, v: Option<Value>, argv: Argv) {
    var s' := SimStep(s, argv, false);
    s'.Some? && Coupled(s'.value, KeyStep(argv, v))
  }

  lemma NumberKeeps(s: Sim, v: Option<Value>, argv: Argv, op: Op)
    requires Coupled(s, v) && CleanCmd(argv, v) && OpCode(argv) == OpOf(argv[0]) == Some(op)
    requires op.IncrOp? || op.DecrOp? || op.IncrByOp? || op.DecrByOp?
    ensures Keeps(s, v, argv)
  {
    hide Coupled, Canonical, OpCode, OpOf, AddTo, IncrBy, DecrBy;
    if op.IncrByOp? || op.DecrByOp? {
      OperandIs(argv);
      assert argv[2..][0] == argv[2];
      AddKeeps(s, v, Amount(argv[2]).value);
    } else {
      AddKeeps(s, v, 1);
    }
  }

  lemma ListKeeps(s: Sim, v: Option<Value>, argv: Argv, op: Op)
    requires Coupled(s, v) && CleanCmd(argv, v) && OpCode(argv) == OpOf(argv[0]) == Some(op) && !Negative(argv)
    requires op.LPushOp? || op.RPushOp? || op.LPopOp? || op.RPopOp? || op.LSetOp?
    ensures Keeps(s, v, argv)
  {
    hide Canonical, OpCode, OpOf, Word, PushAll, Index;
    var args := argv[2..];
    if op.LSetOp? {
      OperandIs(argv);
      assert args[0] == argv[2] && args[1] == argv[3];
    }
    if op.LPushOp? || op.RPushOp? { PushGrows(if v.None? then [] else v.value.items, args, op.LPushOp?); }
  }

  lemma PushGrows(items: seq<Bytes>, vals: seq<Bytes>, left: bool)
    ensures vals != [] ==> PushAll(items, vals, left) != []
  {
  }

  lemma OtherKeeps(s: Sim, v: Option<Value>, argv: Argv, op: Op)
    requires Coupled(s, v) && CleanCmd(argv, v) && OpCode(argv) == OpOf(argv[0]) == Some(op)
    requires op.HSetOp? || op.HDelOp? || op.SAddOp? || op.SRemOp? || op.AppendOp?
    ensures Keeps(s, v, argv)
  {
    hide Canonical, OpCode, OpOf, UpdateAll, Dec;
    var args := argv[2..];
    assert START.dict - Range(args) == map[] && {} - Range(args) == {} && {} + Range(args) == Range(args);
    if args != [] { assert args[0] == argv[2] && [] + args[0] == args[0]; }
  }

  lemma SetIsKept(s: Sim, v: Option<Value>, argv: Argv)
    requires CleanCmd(argv, v) && OpCode(argv) == OpOf(argv[0]) == Some(SetOp)
    ensures Keeps(s, v, argv)
  {
    hide Canonical, OpCode, OpOf, Coupled, SetTo;
    SetKeeps(s, argv[2]);
    assert argv[2..][0] == argv[2];
  }

  /** Without operands nothing happens but a change of kind, which an empty collection does not mind. */
  lemma BareKeeps(s: Sim, v: Option<Value>, argv: Argv, op: Op)
    requires Coupled(s, v) && CleanCmd(argv, v) && OpOf(argv[0]) == Some(op) && OpCode(argv) == None && Bare(op, |argv|)
    ensures Keeps(s, v, argv)
  {
    hide OpCode, OpOf;
    var args := argv[2..];
    assert args == [] && Range(args) == {} && START.dict - {} == map[] && {} - {} == START.members;
  }

  /** One simulated command keeps step with replay. */
  lemma StepKeeps(s: Sim, v: Option<Value>, argv: Argv)
    requires Coupled(s, v) && CleanCmd(argv, v) && Head(argv) != Word(DelOp) && !Negative(argv)
    ensures Keeps(s, v, argv)
  {
    hide Coupled, OpCode, OpOf, Word, Act, SimStep, KeyStep, Canonical;
    FormedOp(argv);
    var op := OpOf(argv[0]).value;
    if Bare(op, |argv|) {
      BareKeeps(s, v, argv, op);
    } else {
      match op
      case SetOp => SetIsKept(s, v, argv);
      case DelOp =>
      case IncrOp | DecrOp | IncrByOp | DecrByOp => NumberKeeps(s, v, argv, op);
      case LPushOp | RPushOp | LPopOp | RPopOp | LSetOp => ListKeeps(s, v, argv, op);
      case _ => OtherKeeps(s, v, argv, op);
    }
  }

  /** The queue of a key whose value is `v`: unless it has a negative index, its simulation is defined
      and holds `v`. */
  ghost predicate Tracks(q: seq<Argv>, v: Option<Value>) {
    Tidy(q) && (NoNegative(q) ==> SimulateAll(q).Some? && Coupled(SimulateAll(q).value, v))
  }

  lemma NoNegativeSnoc(q: seq<Argv>, argv: Argv)
    ensures NoNegative(q + [argv]) <==> NoNegative(q) && !Negative(argv)
  {
    hide Negative;
    assert argv in q + [argv];
  }

  lemma SimulateSnoc(q: seq<Argv>, argv: Argv)
    ensures SimulateAll(q + [argv]) == if SimulateAll(q).None? then None else SimStep(SimulateAll(q).value, argv, false)
  {
    hide SimStep;
    assert (q + [argv])[..|q|] == q;
  }

  lemma TrackStep(q: seq<Argv>, v: Option<Value>, argv: Argv)
    requires Tracks(q, v) && CleanCmd(argv, v)
    ensures Tracks(Queued(q, argv), KeyStep(argv, v))
  {
    hide CleanCmd, KeyStep, SimStep, Coupled, Negative, Head, Word;
    CleanIsFormed(argv, v);
    DelIsNotSet();
    if Head(argv) == Word(DelOp) {
      SetDelForget(argv, v, v);
      StartCoupled();
    } else if Head(argv) == Word(SetOp) {
      SetDelForget(argv, v, None);
      SetIsClean(argv, v);
      StartCoupled();
      TrackOne([], None, argv);
      assert [] + [argv] == [argv];
    } else {
      TrackOne(q, v, argv);
    }
  }

  /** A command that joins the queue. */
  lemma TrackOne(q: seq<Argv>, v: Option<Value>, argv: Argv)
    requires Tracks(q, v) && CleanCmd(argv, v) && Head(argv) != Word(DelOp) && (q == [] || Head(argv) != Word(SetOp))
    ensures Tracks(q + [argv], KeyStep(argv, v))
  {
    hide CleanCmd, KeyStep, SimStep, Coupled, Negative, Head, Word, NoNegative;
    NoNegativeSnoc(q, argv);
    SimulateSnoc(q, argv);
    if NoNegative(q) && !Negative(argv) { StepKeeps(SimulateAll(q).value, v, argv); }
  }

  lemma StartCoupled()
    ensures Coupled(START, None) && SimulateAll([]) == Some(START)
  {
  }

  lemma CleanIsFormed(argv: Argv, v: Option<Value>)
    requires CleanCmd(argv, v)
    ensures Formed(argv)
  {
    hide Act;
  }

  lemma SetIsClean(argv: Argv, v: Option<Value>)
    requires CleanCmd(argv, v) && Head(argv) == Word(SetOp)
    ensures CleanCmd(argv, None)
  {
    hide Act, Word, OpOf;
    OpOfWord(SetOp);
  }

  lemma CoupledGone(s: Sim, v: Option<Value>)
    requires Coupled(s, v) && Gone(v)
    ensures Coupled(s, None)
  {
  }

  /** After every clean log with harmless deletions, the queue of each key tracks its value. */
  lemma {:induction false} LogTracks(log: seq<Argv>, key: Bytes)
    requires Clean(log) && AllHarmless(log)
    ensures Tracks(Sequential(Group(log, key)), Look(Replay(log), key))
  {
    hide CleanCmd, Harmless, Coupled, KeyStep, AllHarmless, Handle, SimStep;
    if log == [] {
      StartCoupled();
    } else {
      var init, last := log[..|log| - 1], log[|log| - 1];
      assert log == init + [last];
      AllHarmlessSnoc(init, last);
      LogTracks(init, key);
      TrackLast(init, last, key);
    }
  }

  /** One more command, seen from one key. */
  lemma TrackLast(init: seq<Argv>, last: Argv, key: Bytes)
    requires |last| >= 2 && CleanCmd(last, Look(Replay(init), last[1])) && Harmless(last, Replay(init))
    requires Tracks(Sequential(Group(init, key)), Look(Replay(init), key))
    ensures Tracks(Sequential(Group(init + [last], key)), Look(Replay(init + [last]), key))
  {
    hide CleanCmd, Coupled, KeyStep, Handle, SimStep, Word, Formed, Queued;
    var db, q := Replay(init), Sequential(Group(init, key));
    CleanIsFormed(last, Look(db, last[1]));
    HandleAt(last, db, key);
    ReplaySnoc(init, last);
    GroupSnoc(init, last, key);
    if last[1] == key {
      SequentialSnoc(Group(init, key), last);
      TrackStep(q, Look(db, key), last);
    } else if Names(last[1..], key) && Head(last) == Word(DelOp) {
      FurtherKeyGone(last, db, key);
      if NoNegative(q) { CoupledGone(SimulateAll(q).value, Look(db, key)); }
    }
  }

  lemma FurtherKeyGone(argv: Argv, db: Db, key: Bytes)
    requires |argv| >= 2 && Harmless(argv, db) && Names(argv[1..], key) && Head(argv) == Word(DelOp) && argv[1] != key
    ensures Gone(Look(db, key))
  {
    hide Word;
    var i :| 0 <= i < |argv[1..]| && argv[1..][i] == key;
    assert argv[i + 1] == key;
  }

  lemma SequentialSnoc(cmds: seq<Argv>, last: Argv)
    ensures Sequential(cmds + [last]) == Queued(Sequential(cmds), last)
  {
    hide Queued;
    assert (cmds + [last])[..|cmds|] == cmds;
  }

  // ----- What is written for a key -----

  ghost predicate Emits(key: Bytes, q: seq<Argv>, s: Sim, c: Argv) {
    match s.kind
    case None => false
    case Some(OtherKind) => q != [] && c == q[0]
    case Some(ListKind) => c == Cmd(RPushOp, key, s.list)
    case Some(HashKind) => |c| >= 2 && c == Cmd(HSetOp, key, c[2..]) && ListsDict(c[2..], s.dict)
    case Some(SetKind) => |c| >= 2 && c == Cmd(SAddOp, key, c[2..]) && ListsSet(c[2..], s.members)
    case Some(_) => c == Cmd(SetOp, key, [s.text])
  }

  /** Fields and values of a hash in some order, each field once. */
  ghost predicate ListsDict(args: seq<Bytes>, m: map<Bytes, Bytes>) {
    |args| == 2 * |m| && UpdateAll(map[], args) == m
  }

  ghost predicate ListsSet(args: seq<Bytes>, s: set<Bytes>) { |args| == |s| && Range(args) == s }

  /** What is left of a value when absent keys and empty collections are one, and so are an integer
      and its decimal string. */
  function Canon(v: Option<Value>): Option<Value> {
    match v
    case None => None
    case Some(Int(n)) => Some(Str(Dec(n)))
    case Some(Str(_)) => v
    case Some(List(items)) => if items == [] then None else v
    case Some(Dict(m)) => if m == map[] then None else v
    case Some(Set(x)) => if x == {} then None else v
  }

  ghost predicate Similar(a: Db, b: Db) { forall k :: Canon(Look(a, k)) == Canon(Look(b, k)) }

  /** A value set from its own text is that value again, up to integers in decimal. */
  lemma CanonSetTo(text: Bytes)
    ensures Canon(Some(SetTo(text))) == Some(Str(text))
  {
    hide Canonical, Dec;
    var n := Canonical(text, INT64_MIN, INT64_MAX);
    if n.Some? { CanonicalIff(text, INT64_MIN, INT64_MAX, n.value); }
  }

  lemma CmdStep(op: Op, key: Bytes, args: seq<Bytes>)
    ensures KeyStep(Cmd(op, key, args), None) == if Syntax(op, |args| + 2) then Act(op, None, args).after else None
  {
    hide OpCode, Act, Syntax;
    OpCodeOfCmd(op, key, args);
  }

  /** A list pushed element by element in one command. */
  lemma ListRecreated(key: Bytes, items: seq<Bytes>)
    ensures Canon(KeyStep(Cmd(RPushOp, key, items), None)) == Canon(Some(List(items)))
  {
    hide KeyStep, Cmd;
    CmdStep(RPushOp, key, items);
    PushRight([], items);
    assert [] + items == items;
  }

  lemma DictRecreated(key: Bytes, args: seq<Bytes>, m: map<Bytes, Bytes>)
    requires ListsDict(args, m)
    ensures Canon(KeyStep(Cmd(HSetOp, key, args), None)) == Canon(Some(Dict(m)))
  {
    hide KeyStep, Cmd, UpdateAll;
    CmdStep(HSetOp, key, args);
  }

  lemma SetRecreated(key: Bytes, args: seq<Bytes>, x: set<Bytes>)
    requires ListsSet(args, x)
    ensures Canon(KeyStep(Cmd(SAddOp, key, args), None)) == Canon(Some(Set(x)))
  {
    hide KeyStep, Cmd;
    CmdStep(SAddOp, key, args);
  }

  lemma TextRecreated(key: Bytes, text: Bytes)
    ensures Canon(KeyStep(Cmd(SetOp, key, [text]), None)) == Some(Str(text))
  {
    hide KeyStep, Cmd, SetTo, Canon;
    CmdStep(SetOp, key, [text]);
    CanonSetTo(text);
  }

  /** The command written for a simulated value recreates the value. */
  lemma EmittedRecreates(key: Bytes, q: seq<Argv>, s: Sim, v: Option<Value>, c: Argv)
    requires Coupled(s, v) && s.kind != Some(OtherKind) && Emits(key, q, s, c)
    ensures Canon(KeyStep(c, None)) == Canon(v)
  {
    hide KeyStep, Cmd, UpdateAll, Dec, Range;
    match s.kind
    case Some(ListKind) => ListRecreated(key, s.list);
    case Some(HashKind) => DictRecreated(key, c[2..], s.dict);
    case Some(SetKind) => SetRecreated(key, c[2..], s.members);
    case Some(_) => TextRecreated(key, s.text);
  }

  /** The same integer, as a number and as its digits. */
  predicate SameNumber(v: Option<Value>, w: Option<Value>) {
    v.Some? && w.Some? && v.value.Int? && w.value.Str? && w.value.s == Dec(v.value.n)
  }

  /** Exactly what the comparison of stores does not tell apart. */
  lemma CanonIff(v: Option<Value>, w: Option<Value>)
    ensures Canon(v) == Canon(w) <==> v == w || (Gone(v) && Gone(w)) || SameNumber(v, w) || SameNumber(w, v)
  {
    if v.Some? && w.Some? && v.value.Int? && w.value.Int? && Dec(v.value.n) == Dec(w.value.n) {
      DecInjective(v.value.n, w.value.n);
    }
    hide Dec;
  }

  lemma CanonGone(v: Option<Value>)
    ensures Canon(v) == None <==> Gone(v)
  {
  }

  lemma EmittedSingle(key: Bytes, q: seq<Argv>, s: Sim, c: Argv)
    requires NulFree(key) && Emits(key, q, s, c) && s.kind != Some(OtherKind)
    ensures Single(c) && c[1] == key
  {
    hide OpCode, Word;
    var op := if s.kind == Some(ListKind) then RPushOp else if s.kind == Some(HashKind) then HSetOp
              else if s.kind == Some(SetKind) then SAddOp else SetOp;
    OpCodeOfCmd(op, key, c[2..]);
  }

  /** For each key of the log, what is left of its commands and what is written. */
  ghost predicate KeyDone(key: Bytes, cmds: seq<Argv>, g: seq<Argv>) {
    var q := Sequential(cmds);
    if q == [] then g == []
    else
      var s := Simulate(q, |q|);
      s.Some? && |g| == 1 && Emits(key, q, s.value, g[0])
  }

  ghost predicate Compacted(log: seq<Argv>, out: seq<Argv>) {
    && (forall c :: c in out ==> |c| >= 2)
    && (forall key :: KeyDone(key, Group(log, key), Group(out, key)))
  }

  /** What is written for a key whose queue tracks `v` recreates `v`. */
  lemma KeyPreserved(key: Bytes, cmds: seq<Argv>, g: seq<Argv>, v: Option<Value>)
    requires NulFree(key) && (forall c :: c in cmds ==> Formed(c) && c[1] == key)
    requires KeyDone(key, cmds, g) && Tracks(Sequential(cmds), v) && NoNegative(Sequential(cmds))
    ensures AllSingle(g) && (forall c :: c in g ==> c[1] == key)
    ensures Canon(ReplayKey(g)) == Canon(v)
  {
    hide Formed, KeyStep, Single, Coupled, Canon, Word, SimStep, Sequential, Emits, Tidy, NoNegative;
    var q := Sequential(cmds);
    if q == [] {
      NothingLeft(v);
      NothingReplayed();
    } else {
      var c := g[0];
      assert g == [c];
      ReplayOne(c);
      if SetAlone(q) {
        QueueKeeps(cmds, q[0]);
        SimulateAlone(q);
        SetAloneRecreates(key, q, c, v);
      } else {
        SimulateWhole(q);
        var s := SimulateAll(q).value;
        EmittedRecreates(key, q, s, v, c);
        EmittedSingle(key, q, s, c);
      }
    }
  }

  lemma NothingLeft(v: Option<Value>)
    requires SimulateAll([]).Some? && Coupled(SimulateAll([]).value, v)
    ensures Canon(v) == None
  {
  }

  lemma SetAloneRecreates(key: Bytes, q: seq<Argv>, c: Argv, v: Option<Value>)
    requires SetAlone(q) && Formed(q[0]) && q[0][1] == key && |q[0]| == 3
    requires Emits(key, q, START.(kind := Some(OtherKind)), c)
    requires Coupled(START.(text := q[0][2], kind := Some(OtherKind)), v)
    ensures Single(c) && c[1] == key && Canon(KeyStep(c, None)) == Canon(v)
  {
    hide Word, OpOf, Dec, Canonical, OpCode;
    FormedOp(c);
    assert c[2..][0] == c[2];
    CanonSetTo(c[2]);
    hide SetTo;
  }

  lemma {:induction false} QueueKeeps(cmds: seq<Argv>, c: Argv)
    requires c in Sequential(cmds)
    ensures c in cmds
  {
    if cmds != [] && c != cmds[|cmds| - 1] { QueueKeeps(cmds[..|cmds| - 1], c); }
  }

  /** No key of the log has a negative index among the commands that still count. */
  ghost predicate Indexed(log: seq<Argv>) { forall key :: NoNegative(Sequential(Group(log, key))) }

  /** Compaction preserves meaning: the rewritten log replays to the same store, up to empty
      collections and integers in decimal. */
  lemma CompactionPreserves(log: seq<Argv>, out: seq<Argv>)
    requires Clean(log) && AllHarmless(log) && Indexed(log) && Compacted(log, out)
    ensures Similar(Replay(out), Replay(log))
  {
    hide Clean, AllHarmless, NoNegative, Sequential, KeyDone, Canon, Single, Replay, ReplayKey, Group, Tracks;
    forall key
      ensures AllSingle(Group(out, key)) && Canon(ReplayKey(Group(out, key))) == Canon(Look(Replay(log), key))
    {
      LogTracks(log, key);
      GroupPreserved(log, out, key);
    }
    forall c | c in out ensures Single(c) { assert c in Group(out, c[1]); }
    forall key ensures Canon(Look(Replay(out), key)) == Canon(Look(Replay(log), key)) {
      Local(out, key);
    }
  }

  lemma GroupPreserved(log: seq<Argv>, out: seq<Argv>, key: Bytes)
    requires Clean(log) && KeyDone(key, Group(log, key), Group(out, key))
    requires var q := Sequential(Group(log, key)); NoNegative(q) && Tracks(q, Look(Replay(log), key))
    ensures AllSingle(Group(out, key)) && Canon(ReplayKey(Group(out, key))) == Canon(Look(Replay(log), key))
  {
    hide Clean, Canon, Single, Simulate, ReplayKey, Coupled, Formed, SimStep;
    CleanForms(log);
    var g := Group(log, key);
    if g == [] {
      assert Sequential(g) == [] && Group(out, key) == [];
      NothingLeft(Look(Replay(log), key));
      NothingReplayed();
    } else {
      KeyIsNulFree(g, key);
      KeyPreserved(key, g, Group(out, key), Look(Replay(log), key));
    }
  }

  lemma NothingReplayed()
    ensures Canon(ReplayKey([])) == None
  {
  }

  lemma KeyIsNulFree(g: seq<Argv>, key: Bytes)
    requires g != [] && forall c :: c in g ==> Formed(c) && c[1] == key
    ensures NulFree(key)
  {
    hide OpOf;
    assert g[0] in g;
  }

  // ----- The output is a clean log again -----

  /** One key each, clean on a store without that key, and neither `del` nor `lsetindex`. */
  ghost predicate Fresh(c: Argv) {
    && Single(c) && CleanCmd(c, None)
    && (c[0] == Word(SetOp) || c[0] == Word(RPushOp) || c[0] == Word(HSetOp) || c[0] == Word(SAddOp))
  }

  lemma FreshCmd(op: Op, key: Bytes, args: seq<Bytes>)
    requires NulFree(key)
    requires if op.SetOp? then |args| == 1 else op.RPushOp? || op.SAddOp? || (op.HSetOp? && |args| % 2 == 0)
    ensures Fresh(Cmd(op, key, args))
  {
    hide Word, OpOf, OpCode, PushAll, UpdateAll, Range;
    OpOfWord(op);
    OpCodeOfCmd(op, key, args);
  }

  lemma FreshSet(c: Argv)
    requires Formed(c) && Head(c) == Word(SetOp)
    ensures Fresh(c)
  {
    hide Word, OpOf, OpCode, Act;
    FormedOp(c);
    OpOfWord(SetOp);
  }

  lemma EmittedFresh(key: Bytes, q: seq<Argv>, s: Sim, c: Argv)
    requires NulFree(key) && Emits(key, q, s, c) && s.kind != Some(OtherKind)
    ensures Fresh(c)
  {
    hide Fresh, Cmd, UpdateAll, Range;
    match s.kind
    case Some(ListKind) => FreshCmd(RPushOp, key, s.list);
    case Some(HashKind) => FreshCmd(HSetOp, key, c[2..]);
    case Some(SetKind) => FreshCmd(SAddOp, key, c[2..]);
    case Some(_) => FreshCmd(SetOp, key, [s.text]);
  }

  lemma DoneFresh(key: Bytes, cmds: seq<Argv>, g: seq<Argv>)
    requires (forall c :: c in cmds ==> Formed(c) && c[1] == key) && KeyDone(key, cmds, g)
    ensures |g| <= 1 && forall c :: c in g ==> Fresh(c)
  {
    hide Formed, Fresh, Sequential, Emits, Simulate, Tidy, SetAlone;
    var q := Sequential(cmds);
    if q != [] {
      QueueKeeps(cmds, q[0]);
      KeyIsNulFree(cmds, key);
      SequentialTidy(cmds);
      assert g == [g[0]];
      if SetAlone(q) {
        AloneFront(q);
        SimulateAlone(q);
        FreshSet(q[0]);
        EmitsAlone(key, q, g[0]);
      } else {
        SimulateWhole(q);
        EmittedFresh(key, q, Simulate(q, |q|).value, g[0]);
      }
    }
  }

  lemma EmitsAlone(key: Bytes, q: seq<Argv>, c: Argv)
    requires Emits(key, q, START.(kind := Some(OtherKind)), c)
    ensures q != [] && c == q[0]
  {
  }

  lemma CompactedFresh(log: seq<Argv>, out: seq<Argv>)
    requires (forall c :: c in log ==> Formed(c)) && Compacted(log, out)
    ensures (forall c :: c in out ==> Fresh(c)) && AllSingle(out) && forall key :: |Group(out, key)| <= 1
  {
    hide Formed, Fresh, KeyDone, Single;
    forall key ensures |Group(out, key)| <= 1 && forall c :: c in Group(out, key) ==> Fresh(c) {
      DoneFresh(key, Group(log, key), Group(out, key));
    }
    forall c | c in out ensures Fresh(c) && Single(c) {
      assert c in Group(out, c[1]);
      FreshSingle(c);
    }
  }

  lemma FreshSingle(c: Argv)
    requires Fresh(c)
    ensures Single(c) && |c| >= 2 && CleanCmd(c, None)
  {
    hide CleanCmd, OpCode;
  }

  lemma {:induction false} GroupPrefix(log: seq<Argv>, n: nat, key: Bytes)
    requires n <= |log|
    ensures |Group(log[..n], key)| <= |Group(log, key)|
    decreases |log| - n
  {
    hide Group;
    if n < |log| {
      GroupPrefix(log, n + 1, key);
      GroupSnoc(log[..n], log[n], key);
      assert log[..n + 1] == log[..n] + [log[n]];
    } else {
      assert log[..n] == log;
    }
  }

  lemma {:induction false} FreshIsClean(out: seq<Argv>, n: nat)
    requires n <= |out| && AllSingle(out) && (forall c :: c in out ==> Fresh(c)) && forall key :: |Group(out, key)| <= 1
    ensures Clean(out[..n])
  {
    hide Fresh, Single, CleanCmd, Group, ReplayKey;
    if n > 0 {
      var init, last := out[..n - 1], out[n - 1];
      FreshIsClean(out, n - 1);
      assert last in out;
      FreshSingle(last);
      assert out[..n] == init + [last];
      GroupPrefix(out, n, last[1]);
      GroupSnoc(init, last, last[1]);
      assert forall c :: c in init ==> c in out;
      Local(init, last[1]);
      NothingYet(init, last[1]);
      CleanSnoc(init, last);
    }
  }

  lemma NothingYet(init: seq<Argv>, key: Bytes)
    requires |Group(init, key)| == 0
    ensures ReplayKey(Group(init, key)) == None
  {
  }

  lemma FreshIsSafe(c: Argv, db: Db)
    requires Fresh(c)
    ensures Harmless(c, db) && !Negative(c)
  {
    hide Word, OpOf, Single, CleanCmd, Canonical;
    OpOfWord(SetOp);
    OpOfWord(RPushOp);
    OpOfWord(HSetOp);
    OpOfWord(SAddOp);
    OpOfWord(DelOp);
    OpOfWord(LSetOp);
    FreshSingle(c);
  }

  /** What the compactor writes is a clean log itself, which it may be given again. */
  lemma CompactedIsClean(log: seq<Argv>, out: seq<Argv>)
    requires (forall c :: c in log ==> Formed(c)) && Compacted(log, out)
    ensures Clean(out) && AllHarmless(out) && Indexed(out)
  {
    hide Formed, Fresh, Compacted, Harmless, Negative, Clean, Replay, Group, Sequential, AllSingle;
    CompactedFresh(log, out);
    FreshIsClean(out, |out|);
    assert out[..|out|] == out;
    forall i | 0 <= i < |out| ensures Harmless(out[i], Replay(out[..i])) { FreshIsSafe(out[i], Replay(out[..i])); }
    forall key ensures NoNegative(Sequential(Group(out, key))) {
      forall c | c in Sequential(Group(out, key)) ensures !Negative(c) {
        QueueKeeps(Group(out, key), c);
        FreshIsSafe(c, map[]);
      }
    }
  }

  /** Compacting a compacted log once more changes nothing. */
  lemma CompactTwice(log: seq<Argv>, out: seq<Argv>, again: seq<Argv>)
    requires Clean(log) && AllHarmless(log) && Indexed(log) && Compacted(log, out) && Compacted(out, again)
    ensures Similar(Replay(again), Replay(log))
  {
    hide Clean, AllHarmless, Indexed, Compacted, Replay, Canon, Formed;
    CleanForms(log);
    CompactedIsClean(log, out);
    CompactionPreserves(log, out);
    CompactionPreserves(out, again);
  }

  // ----- Listing collections as operands, in any order -----

  method ListDict(dict: map<Bytes, Bytes>) returns (args: seq<Bytes>)
    ensures ListsDict(args, dict)
  {
    hide UpdateAll;
    args := [];
    var left := dict.Keys;
    ghost var done: map<Bytes, Bytes> := map[];
    NoUpdates();
    while left != {}
      invariant left <= dict.Keys && done == dict - left && UpdateAll(map[], args) == done
      invariant |args| == 2 * |done|
      decreases |left|
    {
      var f :| f in left;
      UpdateAllSnoc(map[], args, f, dict[f]);
      MinusOneLess(dict, left, f);
      args := args + [f, dict[f]];
      done := done[f := dict[f]];
      left := left - {f};
    }
  }

  lemma MinusOneLess(dict: map<Bytes, Bytes>, left: set<Bytes>, f: Bytes)
    requires f in left && left <= dict.Keys
    ensures dict - (left - {f}) == (dict - left)[f := dict[f]]
    ensures |(dict - left)[f := dict[f]]| == |dict - left| + 1
  {
    assert (dict - left)[f := dict[f]].Keys == (dict - left).Keys + {f};
  }

  lemma NoUpdates()
    ensures UpdateAll(map[], []) == map[]
  {
  }

  method ListSet(members: set<Bytes>) returns (args: seq<Bytes>)
    ensures ListsSet(args, members)
  {
    args := [];
    var left := members;
    while left != {}
      invariant left <= members && Range(args) == members - left && |args| == |members| - |left|
      decreases |left|
    {
      var x :| x in left;
      RangeAppend(args, x);
      args := args + [x];
      left := left - {x};
    }
  }

  lemma RangeAppend(args: seq<Bytes>, x: Bytes)
    ensures Range(args + [x]) == Range(args) + {x}
  {
    forall y | y in Range(args) ensures y in Range(args + [x]) {
      var i :| 0 <= i < |args| && args[i] == y;
      assert (args + [x])[i] == y;
    }
    assert (args + [x])[|args|] == x;
  }

  // ----- Any order of the output will do -----

  lemma {:induction false} GroupCount(log: seq<Argv>, key: Bytes, c: Argv)
    ensures multiset(Group(log, key))[c] == if |c| >= 2 && c[1] == key then multiset(log)[c] else 0
  {
    if log != [] {
      var init, last := log[..|log| - 1], log[|log| - 1];
      assert log == init + [last];
      GroupCount(init, key, c);
    }
  }

  /** Each key has one command at most, so the order in which they reach the file does not matter. */
  lemma AnyOrder(log: seq<Argv>, out: seq<Argv>, file: seq<Argv>)
    requires Compacted(log, out) && multiset(file) == multiset(out)
    ensures Compacted(log, file)
  {
    hide KeyDone, Group;
    forall c | c in file ensures |c| >= 2 { assert c in multiset(file); }
    forall key ensures KeyDone(key, Group(log, key), Group(file, key)) {
      var g, h := Group(out, key), Group(file, key);
      forall c ensures multiset(g)[c] == multiset(h)[c] { GroupCount(out, key, c); GroupCount(file, key, c); }
      assert multiset(g) == multiset(h);
      AtMostOne(key, Group(log, key), g);
      SameOne(g, h);
    }
  }

  lemma SameOne(g: seq<Argv>, h: seq<Argv>)
    requires multiset(g) == multiset(h) && |g| <= 1
    ensures g == h
  {
    assert |multiset(g)| == |g| && |multiset(h)| == |h|;
    if g != [] { assert h[0] in multiset(h); }
  }

  lemma AtMostOne(key: Bytes, cmds: seq<Argv>, g: seq<Argv>)
    requires KeyDone(key, cmds, g)
    ensures |g| <= 1
  {
  }

  // ----- Logs of the engine -----

  /** Keys that survive the key constructor. */
  predicate Compactable(argv: Argv) {
    && (|argv| >= 2 ==> NulFree(argv[1]))
    && (OpCode(argv) == Some(DelOp) ==> forall i :: 1 <= i < |argv| ==> NulFree(argv[i]))
  }

  lemma LoggedSucceeds(op: Op, v: Option<Value>, args: seq<Bytes>)
    requires Syntax(op, |args| + 2) && Logs(op, Act(op, v, args))
    ensures Act(op, v, args).code == Ok || ((op.HDelOp? || op.SRemOp?) && v.None?)
    ensures op.LPopOp? || op.RPopOp? ==> v.Some? && v.value.List? && v.value.items != []
  {
    hide Canonical;
  }

  lemma SyntaxIsNotBare(op: Op, len: nat)
    ensures Syntax(op, len) ==> !Bare(op, len)
    ensures Bare(op, len) ==> !op.SetOp? && !op.DelOp?
  {
  }

  lemma LoggedIsClean(argv: Argv, db: Db)
    requires Handle(argv, db).logged && Compactable(argv)
    ensures CleanCmd(Logged(argv), Look(db, argv[1]))
  {
    hide Act, Canonical, OpOf, Syntax, Bare;
    LowerTwice(argv);
    var op, v, args := OpCode(argv).value, Look(db, argv[1]), argv[2..];
    SyntaxIsNotBare(op, |argv|);
    assert Logged(argv)[2..] == args && forall i :: 1 <= i < |argv| ==> Logged(argv)[i] == argv[i];
    if !op.DelOp? { LoggedSucceeds(op, v, args); }
  }

  lemma CleanSnoc(log: seq<Argv>, last: Argv)
    requires Clean(log) && |last| >= 2 && CleanCmd(last, Look(Replay(log), last[1]))
    ensures Clean(log + [last])
  {
    hide CleanCmd;
    assert (log + [last])[..|log|] == log;
  }

  /** Every run with NUL-free keys that pops no empty string leaves a clean log, from an empty store
      or from one rebuilt from a clean log. */
  lemma {:induction false} EngineLogsClean(cmds: seq<Argv>, from: State := EMPTY)
    requires Clean(from.log) && Consistent(from)
    requires NeverPopsEmpty(cmds, from) && forall c :: c in cmds ==> Compactable(c)
    ensures Clean(Run(cmds, from).log) && Consistent(Run(cmds, from))
  {
    hide Handle, PopsEmpty, NeverPopsEmpty, CleanCmd, Compactable, Clean, Consistent;
    if cmds != [] {
      var init, last := cmds[..|cmds| - 1], cmds[|cmds| - 1];
      assert cmds == init + [last];
      NeverPopsEmptySnoc(init, last, from);
      EngineLogsClean(init, from);
      RunSnoc(init, last, from);
      var s := Run(init, from);
      LogStep(s, last);
      if Handle(last, s.db).logged {
        LoggedIsClean(last, s.db);
        ConsistentLook(s, last[1]);
        CleanSnoc(s.log, Logged(last));
      }
    }
  }

  lemma EmptyIsClean()
    ensures Clean(EMPTY.log) && Consistent(EMPTY)
  {
  }

  lemma ConsistentLook(s: State, key: Bytes)
    requires Consistent(s)
    ensures Look(Replay(s.log), key) == Look(s.db, key)
  {
    hide Replay;
  }

  lemma {:induction false} RunIsReplay(cmds: seq<Argv>)
    ensures Run(cmds).db == Replay(cmds)
  {
    hide Handle;
    if cmds != [] { RunIsReplay(cmds[..|cmds| - 1]); }
  }
}
