/** The command handlers, working on the container and the log. */
module Engines {
  import opened Wrappers
  import opened ByteStrings
  import opened Decimal
  import opened Store
  import opened Commands
  import opened Container

  lemma StepIs(s: State, argv: Argv, op: Op, e: Effect)
    requires |argv| >= 2 && Syntax(op, |argv|) && e == Act(op, Look(s.db, KeyOf(argv)), argv[2..])
    requires OpCode(argv) == Some(op) && !op.DelOp?
    ensures Step(s, argv) == State(Put(s.db, KeyOf(argv), e.after), if Logs(op, e) then s.log + [Logged(argv)] else s.log)
  {
    hide OpCode, Act;
  }

  /** What a well-formed command does to the value of its key. */
  function EffectOf(op: Op, argv: Argv, db: Db): Effect
    requires |argv| >= 2 && Syntax(op, |argv|)
  {
    Act(op, Look(db, KeyOf(argv)), argv[2..])
  }

  /** The kinds of value that a successful command finds and leaves. */
  lemma OkKinds(op: Op, argv: Argv, db: Db)
    requires |argv| >= 2 && Syntax(op, |argv|)
    ensures var v, e := Look(db, KeyOf(argv)), EffectOf(op, argv, db);
      e.code.Ok? ==>
        match op
        case AppendOp => e.after.Some? && e.after.value.Str?
        case LPushOp | RPushOp => e.after.Some? && e.after.value.List?
        case HDelOp => v.Some? && v.value.Dict? && e.after.Some? && e.after.value.Dict?
        case SAddOp => (v.Some? ==> v.value.Set?) && e.after.Some? && e.after.value.Set?
        case SRemOp => v.Some? && v.value.Set? && e.after.Some? && e.after.value.Set?
        case _ => true
  {
    hide Canonical, Dec, PushAll, UpdateAll, Range, CStr;
  }

  /** The objects of the container after a command at time `now`. */
  function StepObjects(objects: Objects, argv: Argv, now: nat): Objects {
    var op := OpCode(argv);
    if op.None? then objects
    else if op.value.DelOp? then objects - Named(argv[1..])
    else Touched(objects, KeyOf(argv), EffectOf(op.value, argv, Values(objects)), now)
  }

  lemma StepObjectsIs(objects: Objects, argv: Argv, op: Op, now: nat)
    requires |argv| >= 2 && Syntax(op, |argv|) && OpCode(argv) == Some(op) && !op.DelOp?
    ensures StepObjects(objects, argv, now) == Touched(objects, KeyOf(argv), EffectOf(op, argv, Values(objects)), now)
  {
    hide OpCode, EffectOf;
  }

  lemma StepObjectsLogged(objects: Objects, argv: Argv, now: nat)
    requires argv != []
    ensures StepObjects(objects, Logged(argv), now) == StepObjects(objects, argv, now)
  {
    hide Act, OpCode, Touched;
    LowerTwice(argv);
    if |argv| >= 2 { assert Logged(argv)[1..] == argv[1..] && Logged(argv)[2..] == argv[2..]; }
  }

  lemma SizeOfValues(objects: Objects)
    ensures |Values(objects)| == |objects|
  {
    assert Values(objects).Keys == objects.Keys;
  }

  /** The opcode in lower case, as the handlers get it. */
  predicate Plain(argv: Argv) { argv != [] && Lower(argv[0]) == argv[0] }

  class Engine {
    const container: KVContainer
    var log: seq<Argv>

    ghost predicate Valid()
      reads this, container, container.buckets
    {
      container.Valid()
    }

    ghost function Now(): State
      reads this, container
    {
      State(container.Contents(), log)
    }

    /** The command was run at time `now` as the specification says, visit times included. */
    twostate predicate Ran(argv: Argv, now: nat)
      reads this, container, container.buckets
    {
      Valid() && Now() == Step(old(Now()), argv) && container.objects == StepObjects(old(container.objects), argv, now)
    }

    constructor ()
      ensures Valid() && Now() == Run([]) && fresh(container) && fresh(container.buckets)
    {
      container := new KVContainer();
      log := [];
    }

    /** Hands a command to the log, when its handler decided so. */
    method Finish(argv: Argv, op: Op, logs: bool, now: nat, ghost before: State, ghost objects: Objects)
      requires Valid() && |argv| >= 2 && Syntax(op, |argv|)
      requires before.db == Values(objects) && log == before.log
      requires var e := EffectOf(op, argv, before.db);
               && logs == Logs(op, e) && container.Contents() == Put(before.db, KeyOf(argv), e.after)
               && container.objects == Touched(objects, KeyOf(argv), e, now)
      requires Plain(argv) && OpCode(argv) == Some(op) && !op.DelOp?
      modifies this
      ensures Valid() && Now() == Step(before, argv) && container.objects == StepObjects(objects, argv, now)
    {
      hide OpCode, Act, Logs, Touched, Values;
      StepIs(before, argv, op, EffectOf(op, argv, before.db));
      StepObjectsIs(objects, argv, op, now);
      assert Logged(argv) == argv;
      if logs { log := log + [argv]; }
    }

    method SetCommand(argv: Argv, now: nat)
      requires Valid() && Plain(argv) && OpCode(argv) == Some(SetOp)
      modifies this, container, container.buckets
      ensures Ran(argv, now)
      ensures forall v :: INT64_MIN <= v <= INT64_MAX && argv[2] == Dec(v) ==>
        container.Contents() == old(container.Contents())[KeyOf(argv) := Int(v)]
      ensures (forall v :: INT64_MIN <= v <= INT64_MAX ==> argv[2] != Dec(v)) ==>
        container.Contents() == old(container.Contents())[KeyOf(argv) := Str(argv[2])]
    {
      hide OpCode, Put, Look, Canonical, Dec;
      SetToIs(argv[2]);
      PutIs(container.Contents(), KeyOf(argv), SetTo(argv[2]));
      var n := Canonical(argv[2], INT64_MIN, INT64_MAX);
      if n.Some? {
        CanonicalIff(argv[2], INT64_MIN, INT64_MAX, n.value);
        container.SetInt(KeyOf(argv), n.value as int64, now);
      } else {
        container.SetString(KeyOf(argv), argv[2], now);
      }
      assert argv[2..][0] == argv[2];
      Finish(argv, SetOp, true, now, old(Now()), old(container.objects));
    }

    method DelCommand(argv: Argv, now: nat) returns (n: nat)
      requires Valid() && Plain(argv) && OpCode(argv) == Some(DelOp)
      modifies this, container, container.buckets
      ensures Ran(argv, now)
      ensures n == |old(container.Contents())| - |container.Contents()|
    {
      hide OpCode, DeleteAll, Named, Values;
      var keys := argv[1..];
      DeleteAllIs(container.Contents(), keys);
      ValuesMinus(container.objects, Named(keys));
      SizeOfValues(container.objects);
      n := container.DeleteKeys(keys);
      SizeOfValues(container.objects);
      assert Logged(argv) == argv;
      log := log + [argv];
    }

    method IncrDecrCommand(argv: Argv, op: Op, now: nat) returns (ans: int64, code: Code)
      requires Valid() && Plain(argv) && OpCode(argv) == Some(op) && (op.IncrOp? || op.DecrOp?)
      modifies this, container, container.buckets
      ensures Ran(argv, now)
      ensures var e := EffectOf(op, argv, old(container.Contents())); code == e.code && (code.Ok? ==> e.after == Some(Int(ans as int)))
    {
      hide OpCode, Put, Look, IncrBy, DecrBy;
      if op.IncrOp? {
        ans, code := container.IncrIntBy(KeyOf(argv), 1, now);
      } else {
        ans, code := container.DecrIntBy(KeyOf(argv), 1, now);
      }
      Finish(argv, op, code.Ok?, now, old(Now()), old(container.objects));
    }

    method IncrDecrByCommand(argv: Argv, op: Op, now: nat) returns (ans: int64, code: Code)
      requires Valid() && Plain(argv) && OpCode(argv) == Some(op) && (op.IncrByOp? || op.DecrByOp?)
      modifies this, container, container.buckets
      ensures Ran(argv, now)
      ensures var e := EffectOf(op, argv, old(container.Contents())); code == e.code && (code.Ok? ==> e.after == Some(Int(ans as int)))
    {
      hide OpCode, Look, IncrBy, DecrBy, Canonical;
      var n := Canonical(argv[2], INT64_MIN, INT64_MAX);
      assert argv[2..][0] == argv[2];
      ans := 0;
      if n.None? || n.value < 0 {
        code := Fail;
        PutSame(container.Contents(), KeyOf(argv));
      } else if op.IncrByOp? {
        CanonicalIff(argv[2], INT64_MIN, INT64_MAX, n.value);
        ans, code := container.IncrIntBy(KeyOf(argv), n.value as int64, now);
      } else {
        CanonicalIff(argv[2], INT64_MIN, INT64_MAX, n.value);
        ans, code := container.DecrIntBy(KeyOf(argv), n.value as int64, now);
      }
      Finish(argv, op, code.Ok?, now, old(Now()), old(container.objects));
    }

    method AppendCommand(argv: Argv, now: nat) returns (length: nat, code: Code)
      requires Valid() && Plain(argv) && OpCode(argv) == Some(AppendOp)
      modifies this, container, container.buckets
      ensures Ran(argv, now)
      ensures var e := EffectOf(AppendOp, argv, old(container.Contents())); code == e.code && (code.Ok? ==> e.after.Some? && e.after.value.Str? && length == |e.after.value.s|)
    {
      OkKinds(AppendOp, argv, container.Contents());
      hide OpCode, Put, Look, AppendTo;
      assert argv[2..][0] == argv[2];
      length, code := container.Append(KeyOf(argv), argv[2], now);
      Finish(argv, AppendOp, code.Ok?, now, old(Now()), old(container.objects));
    }

    /** A pop is logged only if it handed out a non-empty string. */
    method ListPopCommand(argv: Argv, op: Op, now: nat) returns (popped: Bytes, code: Code)
      requires Valid() && Plain(argv) && OpCode(argv) == Some(op) && (op.LPopOp? || op.RPopOp?)
      modifies this, container, container.buckets
      ensures Ran(argv, now)
      ensures var e := EffectOf(op, argv, old(container.Contents())); code == e.code && popped == e.popped
    {
      hide OpCode, Put, Look, Pop;
      popped, code := container.ListPop(KeyOf(argv), op.LPopOp?, now);
      Finish(argv, op, code.Ok? && popped != [], now, old(Now()), old(container.objects));
    }

    method ListPushCommand(argv: Argv, op: Op, now: nat) returns (length: nat, code: Code)
      requires Valid() && Plain(argv) && OpCode(argv) == Some(op) && (op.LPushOp? || op.RPushOp?)
      modifies this, container, container.buckets
      ensures Ran(argv, now)
      ensures var e := EffectOf(op, argv, old(container.Contents())); code == e.code && (code.Ok? ==> e.after.Some? && e.after.value.List? && length == |e.after.value.items|)
    {
      OkKinds(op, argv, container.Contents());
      hide OpCode, Put, Look, Push;
      length, code := container.ListPush(KeyOf(argv), argv[2..], op.LPushOp?, now);
      Finish(argv, op, code.Ok?, now, old(Now()), old(container.objects));
    }

    method LSetCommand(argv: Argv, now: nat) returns (code: Code)
      requires Valid() && Plain(argv) && OpCode(argv) == Some(LSetOp)
      modifies this, container, container.buckets
      ensures Ran(argv, now)
      ensures var e := EffectOf(LSetOp, argv, old(container.Contents())); code == e.code
    {
      hide OpCode, Look, SetAt, Canonical;
      var i := Canonical(argv[2], INT32_MIN, INT32_MAX);
      assert argv[2..][0] == argv[2] && argv[2..][1] == argv[3];
      if i.None? {
        code := Fail;
        PutSame(container.Contents(), KeyOf(argv));
      } else {
        code := container.ListSetItemAtIndex(KeyOf(argv), i.value, argv[3], now);
      }
      Finish(argv, LSetOp, code.Ok?, now, old(Now()), old(container.objects));
    }

    method HSetCommand(argv: Argv, now: nat) returns (count: nat, code: Code)
      requires Valid() && Plain(argv) && OpCode(argv) == Some(HSetOp)
      modifies this, container, container.buckets
      ensures Ran(argv, now)
      ensures var e := EffectOf(HSetOp, argv, old(container.Contents())); code == e.code && (code.Ok? ==> count == (|argv| - 2) / 2)
    {
      hide OpCode, Put, Look, HashUpdate, Zip;
      var fields, values := Unzip(argv[2..]);
      count, code := container.HashUpdateKV(KeyOf(argv), fields, values, now);
      Finish(argv, HSetOp, code.Ok? && count != 0, now, old(Now()), old(container.objects));
    }

    method HDelCommand(argv: Argv, now: nat) returns (erased: nat, code: Code)
      requires Valid() && Plain(argv) && OpCode(argv) == Some(HDelOp)
      modifies this, container, container.buckets
      ensures Ran(argv, now)
      ensures var v := Look(old(container.Contents()), KeyOf(argv)); var e := EffectOf(HDelOp, argv, old(container.Contents()));
              && code == e.code
              && (code.Ok? ==> v.Some? && v.value.Dict? && e.after.Some? && e.after.value.Dict?)
              && (code.Ok? ==> erased == |v.value.fields| - |e.after.value.fields|)
    {
      OkKinds(HDelOp, argv, container.Contents());
      hide OpCode, Put, Look, HashDel;
      erased, code := container.HashDelField(KeyOf(argv), argv[2..], now);
      Finish(argv, HDelOp, code != WrongType, now, old(Now()), old(container.objects));
    }

    method SAddCommand(argv: Argv, now: nat) returns (count: nat, code: Code)
      requires Valid() && Plain(argv) && OpCode(argv) == Some(SAddOp)
      modifies this, container, container.buckets
      ensures Ran(argv, now)
      ensures var v := Look(old(container.Contents()), KeyOf(argv)); var e := EffectOf(SAddOp, argv, old(container.Contents()));
              && code == e.code
              && (code.Ok? ==> e.after.Some? && e.after.value.Set? && (v.Some? ==> v.value.Set?))
              && (code.Ok? ==> count == |e.after.value.members| - if v.Some? then |v.value.members| else 0)
    {
      OkKinds(SAddOp, argv, container.Contents());
      hide OpCode, Put, Look, SetAdd;
      count, code := container.SetAddItem(KeyOf(argv), argv[2..], now);
      Finish(argv, SAddOp, code != WrongType && code != Fail, now, old(Now()), old(container.objects));
    }

    method SRemCommand(argv: Argv, now: nat) returns (erased: nat, code: Code)
      requires Valid() && Plain(argv) && OpCode(argv) == Some(SRemOp)
      modifies this, container, container.buckets
      ensures Ran(argv, now)
      ensures var v := Look(old(container.Contents()), KeyOf(argv)); var e := EffectOf(SRemOp, argv, old(container.Contents()));
              && code == e.code
              && (code.Ok? ==> v.Some? && v.value.Set? && e.after.Some? && e.after.value.Set?)
              && (code.Ok? ==> erased == |v.value.members| - |e.after.value.members|)
    {
      OkKinds(SRemOp, argv, container.Contents());
      hide OpCode, Put, Look, SetRemove;
      erased, code := container.SetRemoveMembers(KeyOf(argv), argv[2..], now);
      Finish(argv, SRemOp, code != WrongType, now, old(Now()), old(container.objects));
    }

    method Dispatch(argv: Argv, op: Op, now: nat)
      requires Valid() && Plain(argv) && OpCode(argv) == Some(op)
      modifies this, container, container.buckets
      ensures Ran(argv, now)
    {
      hide OpCode, Step;
      match op {
        case SetOp => SetCommand(argv, now);
        case DelOp => var n := DelCommand(argv, now);
        case IncrOp | DecrOp => var ans, code := IncrDecrCommand(argv, op, now);
        case IncrByOp | DecrByOp => var ans, code := IncrDecrByCommand(argv, op, now);
        case AppendOp => var length, code := AppendCommand(argv, now);
        case LPushOp | RPushOp => var length, code := ListPushCommand(argv, op, now);
        case LPopOp | RPopOp => var popped, code := ListPopCommand(argv, op, now);
        case LSetOp => var code := LSetCommand(argv, now);
        case HSetOp => var count, code := HSetCommand(argv, now);
        case HDelOp => var erased, code := HDelCommand(argv, now);
        case SAddOp => var count, code := SAddCommand(argv, now);
        case SRemOp => var erased, code := SRemCommand(argv, now);
      }
    }

    method HandleCommand(argv: Argv, now: nat)
      requires Valid()
      modifies this, container, container.buckets
      ensures Ran(argv, now)
    {
      hide Act, OpOf;
      if argv == [] { return; }
      var cmd := Logged(argv);
      LowerTwice(argv);
      HandleLogged(argv, container.Contents());
      assert Logged(cmd) == cmd by { assert Lower(Lower(argv[0])) == Lower(argv[0]); }
      var op := OpOf(cmd[0]);
      if op.None? || !Syntax(op.value, |cmd|) { return; }
      Dispatch(cmd, op.value, now);
    }
  }

  lemma PutIs(db: Db, key: Bytes, v: Value)
    ensures Put(db, key, Some(v)) == db[key := v]
  {
  }

  method Unzip(args: seq<Bytes>) returns (fields: seq<Bytes>, values: seq<Bytes>)
    requires |args| % 2 == 0
    ensures |fields| == |values| == |args| / 2 && Zip(fields, values) == args
  {
    fields, values := [], [];
    var i := 0;
    while i < |args|
      invariant i <= |args| && i % 2 == 0 && |fields| == |values| == i / 2
      invariant Zip(fields, values) == args[..i]
    {
      ZipSnoc(fields, values, args[i], args[i + 1]);
      fields, values, i := fields + [args[i]], values + [args[i + 1]], i + 2;
    }
    assert args[..i] == args;
  }

  /** Every run of the engine is the specified run: what `LogReplays` says of the one holds of the other. */
  method RunAll(cmds: seq<Argv>) returns (engine: Engine)
    ensures engine.Valid() && engine.Now() == Run(cmds)
    ensures NeverPopsEmpty(cmds) ==> Replay(engine.log) == engine.container.Contents()
  {
    hide Step, Replay, NeverPopsEmpty;
    engine := new Engine();
    for i := 0 to |cmds|
      invariant engine.Valid() && engine.Now() == Run(cmds[..i])
      invariant fresh(engine) && fresh(engine.container) && fresh(engine.container.buckets)
    {
      RunSnoc(cmds[..i], cmds[i]);
      assert cmds[..i + 1] == cmds[..i] + [cmds[i]];
      engine.HandleCommand(cmds[i], i);
    }
    assert cmds[..|cmds|] == cmds;
    EmptyConsistent();
    LogReplays(cmds);
  }
}
