/** Logs outside the compactor's reach: what goes wrong, and for which family of logs. */
module Limits {
  import opened Wrappers
  import opened ByteStrings
  import opened Decimal
  import opened Store
  import opened Commands
  import opened Compaction
  import opened Persistence
  import opened Sizes

  lemma GroupTwo(x: Argv, y: Argv, key: Bytes)
    requires |x| >= 2 && |y| >= 2
    ensures Group([x, y], key) == (if x[1] == key then [x] else []) + (if y[1] == key then [y] else [])
    ensures Group([x], key) == if x[1] == key then [x] else []
  {
    hide Group;
    NoGroups();
    assert Group([], key) == [];
    GroupSnoc([], x, key);
    GroupSnoc([x], y, key);
    assert [] + [x] == [x] && [x] + [y] == [x, y];
  }

  lemma QueueOne(c: Argv)
    ensures Sequential([c]) == if Head(c) == Word(DelOp) then [] else [c]
  {
    hide Word;
    var none: seq<Argv> := [];
    assert [c][..0] == none && Sequential(none) == [];
  }

  lemma CmdParts(op: Op, key: Bytes, args: seq<Bytes>)
    ensures Head(Cmd(op, key, args)) == Word(op) && Cmd(op, key, args)[1] == key
  {
  }

  lemma MultiKeyDelDone(a: Bytes, b: Bytes, text: Bytes, key: Bytes)
    requires a != b
    ensures KeyDone(key, Group([Cmd(SetOp, b, [text]), Cmd(DelOp, a, [b])], key), Group([Cmd(SetOp, b, [text])], key))
  {
    hide Group, Sequential, Simulate, Cmd, Head, Word;
    var x, y := Cmd(SetOp, b, [text]), Cmd(DelOp, a, [b]);
    CmdParts(SetOp, b, [text]);
    CmdParts(DelOp, a, [b]);
    GroupTwo(x, y, key);
    QueueOne(x);
    QueueOne(y);
    DelIsNotSet();
    SimulateSet(b, text);
    NoQueue();
    if key == b {
      assert [x] + [] == [x];
    } else if key == a {
      assert [] + [y] == [y];
    }
  }

  /** `del` with two keys is filed under the first, so the second one comes back. */
  lemma MultiKeyDelComesBack(a: Bytes, b: Bytes, text: Bytes)
    requires NulFree(a) && NulFree(b) && a != b
    ensures var log, out := [Cmd(SetOp, b, [text]), Cmd(DelOp, a, [b])], [Cmd(SetOp, b, [text])];
            Compacted(log, out) && Replay(log) == map[] && Replay(out) == map[b := SetTo(text)]
  {
    hide Group, KeyDone, Cmd, Replay;
    var x, y := Cmd(SetOp, b, [text]), Cmd(DelOp, a, [b]);
    MultiKeyDelReplays(a, b, text);
    forall key ensures KeyDone(key, Group([x, y], key), Group([x], key)) { MultiKeyDelDone(a, b, text, key); }
  }

  lemma NoQueue()
    ensures Sequential([]) == []
  {
  }

  lemma SimulateSet(key: Bytes, text: Bytes)
    ensures Simulate([Cmd(SetOp, key, [text])], 1) == Some(START.(kind := Some(OtherKind)))
  {
    OpOfWord(SetOp);
    hide Word, OpOf;
    var q := [Cmd(SetOp, key, [text])];
    assert Simulate(q, 0) == Some(START);
  }

  lemma MultiKeyDelReplays(a: Bytes, b: Bytes, text: Bytes)
    requires NulFree(a) && NulFree(b) && a != b
    ensures Replay([Cmd(SetOp, b, [text])]) == map[b := SetTo(text)]
    ensures Replay([Cmd(SetOp, b, [text]), Cmd(DelOp, a, [b])]) == map[]
  {
    hide Cmd, Handle, OpCode;
    var x, y := Cmd(SetOp, b, [text]), Cmd(DelOp, a, [b]);
    assert [] + [x] == [x] && [x] + [y] == [x, y];
    ReplaySnoc([], x);
    HandleCmd(SetOp, b, [text], map[]);
    ReplaySnoc([x], y);
    HandleDelTwo(a, b, SetTo(text));
  }

  lemma HandleDelTwo(a: Bytes, b: Bytes, v: Value)
    requires NulFree(a) && NulFree(b) && a != b
    ensures Handle(Cmd(DelOp, a, [b]), map[b := v]).db == map[]
  {
    hide OpCode, Word;
    OpCodeOfCmd(DelOp, a, [b]);
    var keys: seq<Bytes> := Cmd(DelOp, a, [b])[1..];
    var none: seq<Bytes> := [];
    assert keys == [a, b] && keys[..1] == [a] && keys[..1][..0] == none;
    assert DeleteAll(map[b := v], keys[..1]) == map[b := v] by {
      assert DeleteAll(map[b := v], keys[..1][..0]) == map[b := v];
    }
  }

  /** A negative list index counts from the end for the store, but is far outside the simulated list. */
  lemma NegativeIndexUndefined(key: Bytes, x: Bytes, y: Bytes)
    requires NulFree(key)
    ensures var log := [Cmd(RPushOp, key, [x]), Cmd(LSetOp, key, [Dec(-1), y])];
            Replay(log) == map[key := List([y])] && !Defined(log)
  {
    hide Group, Sequential, Simulate, Cmd, Replay, Dec;
    var push, put := Cmd(RPushOp, key, [x]), Cmd(LSetOp, key, [Dec(-1), y]);
    CmdParts(RPushOp, key, [x]);
    CmdParts(LSetOp, key, [Dec(-1), y]);
    NegativeIndexReplays(key, x, y);
    GroupTwo(push, put, key);
    assert Group([push, put], key) == [push, put];
    NegativeIndexQueue(key, x, y);
    NegativeIndexSimulated(key, x, y);
    assert !KeyDefined(Group([push, put], key));
  }

  lemma NegativeIndexReplays(key: Bytes, x: Bytes, y: Bytes)
    requires NulFree(key)
    ensures Replay([Cmd(RPushOp, key, [x]), Cmd(LSetOp, key, [Dec(-1), y])]) == map[key := List([y])]
  {
    hide Cmd, Handle, Canonical, Dec;
    var push, put := Cmd(RPushOp, key, [x]), Cmd(LSetOp, key, [Dec(-1), y]);
    assert [] + [push] == [push] && [push] + [put] == [push, put];
    ReplaySnoc([], push);
    HandleCmd(RPushOp, key, [x], map[]);
    PushRight([], [x]);
    assert [] + [x] == [x];
    ReplaySnoc([push], put);
    HandleCmd(LSetOp, key, [Dec(-1), y], map[key := List([x])]);
    CanonicalIff(Dec(-1), INT32_MIN, INT32_MAX, -1);
    assert [x][0 := y] == [y];
  }

  lemma OtherWord(op: Op)
    requires !op.SetOp? && !op.DelOp?
    ensures Word(op) != Word(SetOp) && Word(op) != Word(DelOp)
  {
    OpOfWord(op);
    OpOfWord(SetOp);
    OpOfWord(DelOp);
    hide Word, OpOf;
  }

  lemma NegativeIndexQueue(key: Bytes, x: Bytes, y: Bytes)
    ensures var q := [Cmd(RPushOp, key, [x]), Cmd(LSetOp, key, [Dec(-1), y])]; Sequential(q) == q
  {
    hide Word, Dec, Head, Cmd;
    var push, put := Cmd(RPushOp, key, [x]), Cmd(LSetOp, key, [Dec(-1), y]);
    CmdParts(RPushOp, key, [x]);
    CmdParts(LSetOp, key, [Dec(-1), y]);
    OtherWord(RPushOp);
    OtherWord(LSetOp);
    QueueOne(push);
    assert [push, put][..1] == [push] && [push] + [put] == [push, put];
  }

  lemma PushSimulated(key: Bytes, x: Bytes)
    ensures SimStep(START, Cmd(RPushOp, key, [x]), false) == Some(START.(list := [x], kind := Some(ListKind)))
  {
    OpOfWord(RPushOp);
    hide Word, OpOf;
    PushRight([], [x]);
    assert [] + [x] == [x];
  }

  lemma MinusOneIndex(argv: Argv)
    requires |argv| >= 3 && argv[2] == Dec(-1)
    ensures Index(argv) == Some(0xFFFF_FFFF_FFFF_FFFF)
  {
    hide Dec, ScanInt;
    ScanDec(-1, []);
    assert Dec(-1) + [] == Dec(-1);
  }

  lemma PutSimulated(s: Sim, key: Bytes, y: Bytes)
    requires |s.list| == 1
    ensures SimStep(s, Cmd(LSetOp, key, [Dec(-1), y]), true) == None
  {
    hide Word, OpOf, Dec, Index, AddTo, Cmd;
    OpOfWord(LSetOp);
    CmdParts(LSetOp, key, [Dec(-1), y]);
    var c := Cmd(LSetOp, key, [Dec(-1), y]);
    assert c[2] == c[2..][0] == Dec(-1);
    MinusOneIndex(c);
  }

  lemma NegativeIndexSimulated(key: Bytes, x: Bytes, y: Bytes)
    ensures Simulate([Cmd(RPushOp, key, [x]), Cmd(LSetOp, key, [Dec(-1), y])], 2) == None
  {
    hide SimStep, Cmd, Dec;
    var q := [Cmd(RPushOp, key, [x]), Cmd(LSetOp, key, [Dec(-1), y])];
    PushSimulated(key, x);
    assert Simulate(q, 0) == Some(START);
    PutSimulated(Simulate(q, 1).value, key, y);
  }

  // ----- When the compactor is defined -----

  /** An index from the end that the store accepts lies far outside the simulated list. */
  lemma NegativeBreaks(s: Sim, v: Option<Value>, argv: Argv, alone: bool)
    requires Coupled(s, v) && |s.list| <= INT64_MAX && CleanCmd(argv, v) && Negative(argv)
    ensures SimStep(s, argv, alone) == None
  {
    hide Canonical, ScanInt, OpOf, Dec, Word, Act, Index;
    OpOfWord(LSetOp);
    OperandIs(argv);
    CanonicalIff(argv[2], INT32_MIN, INT32_MAX, Canonical(argv[2], INT32_MIN, INT32_MAX).value);
  }

  /** A negative index among the commands that still count leaves the simulation undefined. */
  ghost predicate Breaks(q: seq<Argv>) { !NoNegative(q) ==> SimulateAll(q) == None }

  lemma BreakStep(q: seq<Argv>, v: Option<Value>, argv: Argv)
    requires Breaks(q) && Tracks(q, v) && CleanCmd(argv, v) && LogWeight(q) <= INT64_MAX
    ensures Breaks(Queued(q, argv))
  {
    hide CleanCmd, SimStep, Coupled, LogWeight, Head, Word;
    if Head(argv) == Word(SetOp) || Head(argv) == Word(DelOp) {
      NotNegative(argv);
    } else {
      NoNegativeSnoc(q, argv);
      SimulateSnoc(q, argv);
      if NoNegative(q) && Negative(argv) {
        SimulateAllWithin(q);
        ListIsWithin(SimulateAll(q).value, LogWeight(q));
        NegativeBreaks(SimulateAll(q).value, v, argv, false);
      }
    }
  }

  lemma ListIsWithin(s: Sim, w: nat)
    requires Within(s, w)
    ensures |s.list| <= w
  {
  }

  lemma NotNegative(argv: Argv)
    requires Head(argv) == Word(SetOp) || Head(argv) == Word(DelOp)
    ensures !Negative(argv)
  {
    OtherWord(LSetOp);
    hide Word, Canonical;
  }

  lemma {:induction false} LogBreaks(log: seq<Argv>, key: Bytes)
    requires Clean(log) && AllHarmless(log) && LogWeight(log) <= INT64_MAX
    ensures Breaks(Sequential(Group(log, key)))
  {
    hide CleanCmd, Breaks, Tracks, Weight, Queued, Replay, AllHarmless;
    if log == [] {
      NothingBreaks();
    } else {
      var init, last := log[..|log| - 1], log[|log| - 1];
      assert log == init + [last];
      AllHarmlessSnoc(init, last);
      LogBreaks(init, key);
      GroupSnoc(init, last, key);
      if last[1] == key {
        var g := Group(init, key);
        LogTracks(init, key);
        SequentialSnoc(g, last);
        GroupWeight(init, key);
        SequentialWeight(g);
        BreakStep(Sequential(g), Look(Replay(init), key), last);
      }
    }
  }

  lemma NothingBreaks()
    ensures Breaks([])
  {
  }

  lemma KeyDefinedIff(log: seq<Argv>, key: Bytes)
    requires Clean(log) && AllHarmless(log) && LogWeight(log) <= INT64_MAX
    ensures KeyDefined(Group(log, key)) <==> NoNegative(Sequential(Group(log, key)))
  {
    hide Clean, AllHarmless, LogWeight, Sequential, Replay, Coupled, SimStep, Negative, Tidy, SetAlone;
    var g := Group(log, key);
    var q := Sequential(g);
    LogTracks(log, key);
    LogBreaks(log, key);
    CleanForms(log);
    if SetAlone(q) {
      AloneFront(q);
      NotNegative(q[0]);
      assert q == [q[0]];
    } else if q != [] {
      SimulateWhole(q);
    }
    if NoNegative(q) { TrackedIsDefined(g, Look(Replay(log), key)); }
  }

  /** Of clean logs with harmless deletions, the compactor is defined exactly on those without a
      negative index among the commands that still count for a key. */
  lemma DefinedIff(log: seq<Argv>)
    requires Clean(log) && AllHarmless(log) && LogWeight(log) <= INT64_MAX
    ensures Defined(log) <==> Indexed(log)
  {
    hide Clean, AllHarmless, LogWeight, KeyDefined, NoNegative, Sequential, Formed;
    CleanForms(log);
    forall c | c in log ensures |c| >= 2 { FormedLength(c); }
    forall key ensures KeyDefined(Group(log, key)) <==> NoNegative(Sequential(Group(log, key))) { KeyDefinedIff(log, key); }
  }

  // ----- When the compactor is right -----

  /** The compactor is defined on the log, and whatever it may write replays to the same store. */
  ghost predicate Right(log: seq<Argv>) {
    Defined(log) && forall out :: Compacted(log, out) ==> Similar(Replay(out), Replay(log))
  }

  ghost predicate AlwaysRight(log: seq<Argv>) { forall i :: 0 <= i <= |log| ==> Right(log[..i]) }

  /** What a caller can tell of a command and the store before it. */
  ghost predicate Safe(argv: Argv, db: Db) { Harmless(argv, db) && !Negative(argv) }

  ghost predicate AllSafe(log: seq<Argv>) {
    forall i :: 0 <= i < |log| ==> Safe(log[i], Replay(log[..i]))
  }

  lemma AlwaysRightSnoc(init: seq<Argv>, last: Argv)
    ensures AlwaysRight(init + [last]) <==> AlwaysRight(init) && Right(init + [last])
    ensures AllSafe(init + [last]) <==> AllSafe(init) && Safe(last, Replay(init))
  {
    hide Right, Safe, Replay;
    var log := init + [last];
    assert log[..|log|] == log && log[|init|] == last && log[..|init|] == init;
    assert forall i :: 0 <= i <= |init| ==> init[..i] == log[..i];
    assert forall i :: 0 <= i < |init| ==> init[i] == log[i];
  }

  lemma {:induction false} SafeLog(log: seq<Argv>)
    requires AllSafe(log)
    ensures AllHarmless(log) && Indexed(log)
  {
    hide Harmless, Negative, Replay;
    assert forall i :: 0 <= i < |log| ==> Safe(log[i], Replay(log[..i]));
    forall key ensures NoNegative(Sequential(Group(log, key))) {
      forall c | c in Sequential(Group(log, key)) ensures !Negative(c) {
        QueueKeeps(Group(log, key), c);
        var i :| 0 <= i < |log| && log[i] == c;
        assert Safe(log[i], Replay(log[..i]));
      }
    }
  }

  lemma SafeIsRight(log: seq<Argv>)
    requires Clean(log) && AllSafe(log) && LogWeight(log) <= INT64_MAX
    ensures Right(log)
  {
    hide Clean, AllSafe, AllHarmless, Indexed, LogWeight, Defined, Compacted, Similar, Replay;
    SafeLog(log);
    DefinedIff(log);
    forall out | Compacted(log, out) ensures Similar(Replay(out), Replay(log)) { CompactionPreserves(log, out); }
  }

  /** A negative index as the last command: the compactor reads outside its list. */
  lemma NegativeIsWrong(init: seq<Argv>, last: Argv)
    requires Clean(init + [last]) && AllSafe(init) && LogWeight(init + [last]) <= INT64_MAX && Negative(last)
    ensures !Right(init + [last])
  {
    hide AllHarmless, LogWeight, Replay, AllSafe, Similar, Compacted, CleanCmd, Canonical, Word, Sequential;
    var log := init + [last];
    var key := last[1];
    assert log[..|log| - 1] == init;
    SafeLog(init);
    NegativeIsHarmless(last, Replay(init));
    AllHarmlessSnoc(init, last);
    DefinedIff(log);
    GroupSnoc(init, last, key);
    SequentialSnoc(Group(init, key), last);
    NegativeHead(last);
    NegativeIsQueued(Sequential(Group(init, key)), last);
  }

  lemma NegativeHead(argv: Argv)
    requires Negative(argv)
    ensures Head(argv) != Word(DelOp) && Head(argv) != Word(SetOp)
  {
    OtherWord(LSetOp);
    hide Word, Canonical;
  }

  lemma NegativeIsQueued(q: seq<Argv>, argv: Argv)
    requires Negative(argv)
    ensures !NoNegative(Queued(q, argv))
  {
    NegativeHead(argv);
    hide Word, Negative, Head;
    assert argv in q + [argv];
  }

  lemma NegativeIsHarmless(argv: Argv, db: Db)
    requires Negative(argv)
    ensures Harmless(argv, db)
  {
    NegativeHead(argv);
    hide Word, Canonical;
  }

  /** A `del` that takes away a further key with something to lose: the key comes back. */
  lemma HarmIsWrong(init: seq<Argv>, last: Argv)
    requires Clean(init + [last]) && AllSafe(init) && LogWeight(init + [last]) <= INT64_MAX
    requires !Harmless(last, Replay(init))
    ensures !Right(init + [last])
  {
    hide AllHarmless, LogWeight, AllSafe, CleanCmd, Word, Canon, Replay, Compacted, Defined;
    var log, db := init + [last], Replay(init);
    assert log[..|log| - 1] == init && log[|log| - 1] == last;
    CleanIsFormed(last, Look(db, last[1]));
    var i :| 2 <= i < |last| && last[i] != last[1] && !Gone(Look(db, last[i]));
    if Defined(log) {
      var out := CompactionExists(log);
      SafeLog(init);
      ComesBack(init, last, out, last[i]);
    }
  }

  lemma ComesBack(init: seq<Argv>, last: Argv, out: seq<Argv>, key: Bytes)
    requires Clean(init) && AllHarmless(init) && Indexed(init) && Formed(last) && last[0] == Word(DelOp)
    requires Compacted(init + [last], out) && Names(last[1..], key) && key != last[1] && !Gone(Look(Replay(init), key))
    ensures !Similar(Replay(out), Replay(init + [last]))
  {
    hide Clean, AllHarmless, Canon, Single, Handle, ReplayKey, Formed, Word, KeyDone, Tracks, NoNegative, Sequential, Gone;
    var log, db := init + [last], Replay(init);
    ReplaySnoc(init, last);
    HandleAt(last, db, key);
    FormedLength(last);
    CleanForms(init);
    CompactedFresh(log, out);
    GroupSnoc(init, last, key);
    LogTracks(init, key);
    GroupPreserved(init, out, key);
    Local(out, key);
    CanonGone(Look(db, key));
    CanonGone(None);
    NoneGone();
    assert Canon(Look(Replay(out), key)) != Canon(Look(Replay(log), key));
  }

  lemma NoneGone()
    ensures Gone(None)
  {
  }

  /** One more command keeps the compactor right exactly when it is safe on the store before it. */
  lemma RightStep(init: seq<Argv>, last: Argv)
    requires Clean(init + [last]) && AllSafe(init) && LogWeight(init + [last]) <= INT64_MAX
    ensures Right(init + [last]) <==> Safe(last, Replay(init))
  {
    hide Clean, AllSafe, LogWeight, Right, Harmless, Negative, Replay;
    if Safe(last, Replay(init)) {
      AlwaysRightSnoc(init, last);
      SafeIsRight(init + [last]);
    } else if Negative(last) {
      NegativeIsWrong(init, last);
    } else {
      HarmIsWrong(init, last);
    }
  }

  /** The compactor is right at every point of a clean log exactly when every `del` is harmless there
      and no list index counts from the end. */
  lemma {:induction false} RightIff(log: seq<Argv>)
    requires Clean(log) && LogWeight(log) <= INT64_MAX
    ensures AlwaysRight(log) <==> AllSafe(log)
  {
    hide Right, Safe, CleanCmd, Weight, AlwaysRight, AllSafe, Replay;
    if log == [] {
      NothingUnsafe();
      SafeIsRight([]);
      OnlyEmpty();
    } else {
      var init, last := log[..|log| - 1], log[|log| - 1];
      assert log == init + [last];
      RightIff(init);
      AlwaysRightSnoc(init, last);
      if AllSafe(init) { RightStep(init, last); }
    }
  }

  lemma NothingUnsafe()
    ensures AllSafe([])
  {
  }

  lemma OnlyEmpty()
    requires Right([])
    ensures AlwaysRight([])
  {
    hide Right;
  }
}
