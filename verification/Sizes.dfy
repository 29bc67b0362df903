/** What compaction writes is hardly larger than what it reads, so it fits where the log fits. */
module Sizes {
  import opened Wrappers
  import opened ByteStrings
  import opened Decimal
  import opened Store
  import opened Commands
  import opened Compaction
  import opened Snapshots
  import Resp
  import Loader

  function Weight(argv: Argv): nat {
    if argv == [] then 0 else Weight(argv[..|argv| - 1]) + |argv[|argv| - 1]| + 1
  }

  function LogWeight(log: seq<Argv>): nat {
    if log == [] then 0 else LogWeight(log[..|log| - 1]) + Weight(log[|log| - 1])
  }

  ghost predicate AllWithin(ss: seq<Bytes>, w: nat) { forall x :: x in ss ==> |x| <= w }

  lemma {:induction false} WeightBounds(argv: Argv)
    ensures |argv| <= Weight(argv) && AllWithin(argv, Weight(argv))
  {
    if argv != [] {
      var init, last := argv[..|argv| - 1], argv[|argv| - 1];
      WeightBounds(init);
      assert argv == init + [last];
    }
  }

  lemma {:induction false} MemberWeight(log: seq<Argv>, c: Argv)
    requires c in log
    ensures Weight(c) <= LogWeight(log)
  {
    hide Weight;
    if c != log[|log| - 1] { MemberWeight(log[..|log| - 1], c); }
  }

  lemma {:induction false} GroupWeight(log: seq<Argv>, key: Bytes)
    ensures LogWeight(Group(log, key)) <= LogWeight(log)
  {
    hide Weight;
    if log != [] {
      var init, last := log[..|log| - 1], log[|log| - 1];
      GroupWeight(init, key);
      LogWeightSnoc(Group(init, key), last);
    }
  }

  lemma {:induction false} SequentialWeight(cmds: seq<Argv>)
    ensures LogWeight(Sequential(cmds)) <= LogWeight(cmds)
  {
    hide Weight, Word;
    if cmds != [] {
      var init, last := cmds[..|cmds| - 1], cmds[|cmds| - 1];
      SequentialWeight(init);
      LogWeightSnoc(Sequential(init), last);
      LogWeightSnoc([], last);
      assert [] + [last] == [last];
    }
  }

  lemma LogWeightSnoc(init: seq<Argv>, last: Argv)
    ensures LogWeight(init + [last]) == LogWeight(init) + Weight(last)
  {
    assert (init + [last])[..|init|] == init;
  }

  // ----- The buffers of the simulation -----

  ghost predicate DictWithin(m: map<Bytes, Bytes>, w: nat) {
    |m| <= w && forall k :: k in m ==> |k| <= w && |m[k]| <= w
  }

  ghost predicate SetWithin(x: set<Bytes>, w: nat) { |x| <= w && forall k :: k in x ==> |k| <= w }

  ghost predicate ListWithin(list: seq<Bytes>, w: nat) { |list| <= w && AllWithin(list, w) }

  ghost predicate Within(s: Sim, w: nat) {
    && ListWithin(s.list, w) && DictWithin(s.dict, w) && SetWithin(s.members, w)
    && |s.text| <= w + 20
  }

  lemma {:induction false} PushAllWithin(items: seq<Bytes>, vals: seq<Bytes>, left: bool, w: nat)
    requires AllWithin(items, w) && AllWithin(vals, w)
    ensures |PushAll(items, vals, left)| == |items| + |vals| && AllWithin(PushAll(items, vals, left), w)
  {
    if vals != [] {
      assert vals[|vals| - 1] in vals;
      PushAllWithin(items, vals[..|vals| - 1], left, w);
    }
  }

  lemma {:induction false} UpdateAllWithin(m: map<Bytes, Bytes>, args: seq<Bytes>, v: nat, w: nat)
    requires DictWithin(m, v) && AllWithin(args, w) && v + |args| <= w
    ensures DictWithin(UpdateAll(m, args), w) && |UpdateAll(m, args)| <= v + |args|
  {
    if |args| >= 2 {
      var init := args[..|args| - 2];
      assert args[|args| - 2] in args && args[|args| - 1] in args;
      UpdateAllWithin(m, init, v, w);
      UpdateGrows(UpdateAll(m, init), args[|args| - 2], args[|args| - 1]);
    }
  }

  lemma {:induction false} RangeSize(args: seq<Bytes>)
    ensures |Range(args)| <= |args|
  {
    if args == [] {
      assert Range(args) == {};
    } else {
      var init, last := args[..|args| - 1], args[|args| - 1];
      RangeSize(init);
      assert args == init + [last];
      RangeAppend(init, last);
      hide Range;
    }
  }

  lemma JoinWithin(x: set<Bytes>, args: seq<Bytes>, v: nat, w: nat)
    requires SetWithin(x, v) && AllWithin(args, w) && v + |args| <= w
    ensures SetWithin(x + Range(args), w) && SetWithin(x - Range(args), w)
  {
    RangeSize(args);
    forall k | k in x + Range(args) ensures |k| <= w {
      if k !in x {
        var i :| 0 <= i < |args| && args[i] == k;
        assert k in args;
      }
    }
    hide Range;
    var r := Range(args);
    assert x + r == x + (r - x);
    assert x - r <= x;
    Fewer(x, x - r);
    Fewer(r, r - x);
  }

  lemma Fewer(a: set<Bytes>, b: set<Bytes>)
    requires b <= a
    ensures |b| <= |a|
  {
    assert a == b + (a - b);
  }

  lemma MinusWithin(m: map<Bytes, Bytes>, gone: set<Bytes>, v: nat, w: nat)
    requires DictWithin(m, v) && v <= w
    ensures DictWithin(m - gone, w)
  {
    Fewer(m.Keys, (m - gone).Keys);
  }

  lemma GrowWithin(s: Sim, v: nat, w: nat)
    requires Within(s, v) && v <= w
    ensures Within(s, w)
  {
  }

  lemma OperandsWithin(argv: Argv)
    requires |argv| >= 2
    ensures AllWithin(argv[2..], Weight(argv)) && |argv[2..]| <= Weight(argv)
  {
    WeightBounds(argv);
    hide Weight;
    forall x | x in argv[2..] ensures x in argv { }
  }

  lemma AddWithin(s: Sim, amount: Option<int>, sign: int, w: nat)
    requires Within(s, w)
    ensures var s' := AddTo(s, amount, sign); s'.Some? ==> Within(s'.value, w)
  {
    hide Canonical, Dec;
    var s' := AddTo(s, amount, sign);
    if s'.Some? && s'.value.text != s.text {
      var n := Canonical(s.text, INT64_MIN, INT64_MAX);
      DecLength((if n.Some? then n.value else s.number) + sign * amount.value);
    }
  }

  lemma StepWithin(s: Sim, argv: Argv, alone: bool, v: nat)
    requires Within(s, v)
    ensures var s' := SimStep(s, argv, alone); s'.Some? ==> Within(s'.value, v + Weight(argv))
  {
    hide Weight, PushAll, UpdateAll, Range, AddTo, OpOf, Word, AllWithin, DictWithin, SetWithin, ListWithin;
    if SimStep(s, argv, alone).Some? {
      var a, w, args := Weight(argv), v + Weight(argv), argv[2..];
      GrowWithin(s, v, w);
      OperandsWithin(argv);
      match OpOf(Head(argv)).value
      case LPushOp => PushStepWithin(s.list, args, true, v, a);
      case RPushOp => PushStepWithin(s.list, args, false, v, a);
      case LPopOp | RPopOp => PopStepWithin(s.list, v, w);
      case LSetOp =>
        InWithin(args, args[1], a);
        PutStepWithin(s.list, Index(argv).value, argv[3], v, a);
      case HSetOp | HDelOp | SAddOp | SRemOp => TableStep(s, args, v, a);
      case IncrOp => AddWithin(s, Some(1), 1, w);
      case DecrOp => AddWithin(s, Some(1), -1, w);
      case IncrByOp => AddWithin(s, Operand(argv), 1, w);
      case DecrByOp => AddWithin(s, Operand(argv), -1, w);
      case AppendOp | SetOp => if args != [] { InWithin(args, args[0], a); }
      case DelOp =>
    }
  }

  lemma InWithin(ss: seq<Bytes>, x: Bytes, w: nat)
    requires AllWithin(ss, w) && x in ss
    ensures |x| <= w
  {
  }

  lemma TableStep(s: Sim, args: seq<Bytes>, v: nat, a: nat)
    requires Within(s, v) && AllWithin(args, a) && |args| <= a
    ensures DictWithin(UpdateAll(s.dict, args), v + a) && DictWithin(s.dict - Range(args), v + a)
    ensures SetWithin(s.members + Range(args), v + a) && SetWithin(s.members - Range(args), v + a)
  {
    hide Range, UpdateAll;
    assert AllWithin(args, v + a);
    UpdateAllWithin(s.dict, args, v, v + a);
    MinusWithin(s.dict, Range(args), v, v + a);
    JoinWithin(s.members, args, v, v + a);
  }

  lemma PushStepWithin(list: seq<Bytes>, args: seq<Bytes>, left: bool, v: nat, a: nat)
    requires ListWithin(list, v) && AllWithin(args, a) && |args| <= a
    ensures ListWithin(PushAll(list, args, left), v + a)
  {
    hide PushAll;
    assert AllWithin(list, v + a) && AllWithin(args, v + a);
    PushAllWithin(list, args, left, v + a);
  }

  lemma PopStepWithin(list: seq<Bytes>, v: nat, w: nat)
    requires ListWithin(list, v) && v <= w && list != []
    ensures ListWithin(list[1..], w) && ListWithin(list[..|list| - 1], w)
  {
  }

  lemma PutStepWithin(list: seq<Bytes>, i: nat, x: Bytes, v: nat, a: nat)
    requires ListWithin(list, v) && i < |list| && |x| <= a
    ensures ListWithin(list[i := x], v + a)
  {
  }

  lemma {:induction false} SimulateWithin(q: seq<Argv>, n: nat)
    requires n <= |q| && Simulate(q, n).Some?
    ensures Within(Simulate(q, n).value, LogWeight(q[..n]))
  {
    hide SimStep, Weight, Within;
    if n == 0 {
      StartWithin();
    } else {
      SimulateWithin(q, n - 1);
      StepWithin(Simulate(q, n - 1).value, q[n - 1], |q| == n, LogWeight(q[..n - 1]));
      assert q[..n] == q[..n - 1] + [q[n - 1]];
      LogWeightSnoc(q[..n - 1], q[n - 1]);
    }
  }

  lemma {:induction false} SimulateAllWithin(q: seq<Argv>)
    requires SimulateAll(q).Some?
    ensures Within(SimulateAll(q).value, LogWeight(q))
  {
    hide SimStep, Weight, Within;
    if q == [] {
      StartWithin();
    } else {
      var n := |q| - 1;
      SimulateAllWithin(q[..n]);
      StepWithin(SimulateAll(q[..n]).value, q[n], false, LogWeight(q[..n]));
    }
  }

  lemma StartWithin()
    ensures Within(START, 0) && LogWeight([]) == 0
  {
  }

  // ----- What is written -----

  /** Every argument within `w`, and at most `2 * w` operands. */
  lemma CmdFits(op: Op, key: Bytes, args: seq<Bytes>, w: nat)
    requires |key| <= w && AllWithin(args, w) && |args| <= 2 * w && 2 * w + 22 <= INT64_MAX
    ensures Resp.Fits(Cmd(op, key, args))
  {
    var c := Cmd(op, key, args);
    WordLength(op);
    hide Word;
    forall i | 0 <= i < |c| ensures |c[i]| <= INT64_MAX {
      if i >= 2 { assert c[i] == args[i - 2]; }
    }
  }

  lemma WordLength(op: Op)
    ensures |Word(op)| <= 9
  {
  }

  lemma DictArgsWithin(args: seq<Bytes>, m: map<Bytes, Bytes>, w: nat)
    requires ListsDict(args, m) && DictWithin(m, w)
    ensures AllWithin(args, w) && |args| <= 2 * w
  {
    forall x | x in args ensures |x| <= w {
      var i :| 0 <= i < |args| && args[i] == x;
      ListedValues(args, m, i / 2);
      assert args[2 * (i / 2)] in m;
    }
  }

  lemma SetArgsWithin(args: seq<Bytes>, x: set<Bytes>, w: nat)
    requires ListsSet(args, x) && SetWithin(x, w)
    ensures AllWithin(args, w) && |args| <= 2 * w
  {
    forall y | y in args ensures |y| <= w {
      var i :| 0 <= i < |args| && args[i] == y;
      assert y in Range(args);
    }
  }

  lemma EmittedFits(key: Bytes, q: seq<Argv>, s: Sim, c: Argv, w: nat)
    requires Emits(key, q, s, c) && Within(s, w) && |key| <= w && 2 * w + 62 <= INT64_MAX
    requires q != [] && Resp.Fits(q[0])
    ensures Resp.Fits(c)
  {
    hide Cmd, ListsDict, ListsSet, Resp.Fits;
    match s.kind
    case Some(OtherKind) =>
    case Some(ListKind) => CmdFits(RPushOp, key, s.list, w);
    case Some(HashKind) => DictArgsWithin(c[2..], s.dict, w); CmdFits(HSetOp, key, c[2..], w);
    case Some(SetKind) => SetArgsWithin(c[2..], s.members, w); CmdFits(SAddOp, key, c[2..], w);
    case Some(_) => CmdFits(SetOp, key, [s.text], w + 20);
  }

  lemma LogFits(log: seq<Argv>)
    requires LogWeight(log) <= INT64_MAX
    ensures Loader.AllFit(log)
  {
    forall i | 0 <= i < |log| ensures Resp.Fits(log[i]) {
      MemberWeight(log, log[i]);
      WeightBounds(log[i]);
      hide Weight, LogWeight;
      forall j | 0 <= j < |log[i]| ensures |log[i][j]| <= INT64_MAX { assert log[i][j] in log[i]; }
    }
  }

  lemma GroupFits(log: seq<Argv>, out: seq<Argv>, key: Bytes)
    requires 2 * LogWeight(log) + 62 <= INT64_MAX && KeyDone(key, Group(log, key), Group(out, key))
    ensures forall c :: c in Group(out, key) ==> Resp.Fits(c)
  {
    hide LogWeight, Weight, Sequential, Simulate, Emits, Resp.Fits, Within;
    var g := Group(log, key);
    var q := Sequential(g);
    if q != [] {
      QueueKeeps(g, q[0]);
      LogFits(log);
      InLogFits(log, q[0]);
      MemberWeight(log, q[0]);
      WeightBounds(q[0]);
      assert q[0][1] in q[0];
      GroupWeight(log, key);
      SequentialWeight(g);
      SimulateWithin(q, |q|);
      assert q[..|q|] == q;
      var s := Simulate(q, |q|).value;
      GrowWithin(s, LogWeight(q), LogWeight(log));
      EmittedFits(key, q, s, Group(out, key)[0], LogWeight(log));
    }
  }

  lemma InLogFits(log: seq<Argv>, c: Argv)
    requires Loader.AllFit(log) && c in log
    ensures Resp.Fits(c)
  {
  }

  /** Whatever order compaction writes in, 64-bit lengths can express all of it, if they can express
      twice the size of the log. */
  lemma OutputFits(log: seq<Argv>, out: seq<Argv>)
    requires 2 * LogWeight(log) + 62 <= INT64_MAX && Compacted(log, out)
    ensures Loader.AllFit(out)
  {
    hide LogWeight, KeyDone, Group, Resp.Fits;
    forall i | 0 <= i < |out| ensures Resp.Fits(out[i]) {
      var c := out[i];
      assert c in out && c in Group(out, c[1]);
      GroupFits(log, out, c[1]);
    }
  }
}
