/** Visit times over whole runs, and what LRU eviction makes of them. */
module Recency {
  import opened Wrappers
  import opened ByteStrings
  import opened Decimal
  import opened Store
  import opened Commands
  import opened Container
  import opened Engines

  /** A command and the time at which it is handled. */
  datatype Call = Call(argv: Argv, now: nat)

  function Cmds(calls: seq<Call>): (cmds: seq<Argv>)
    ensures |cmds| == |calls|
  {
    if calls == [] then [] else Cmds(calls[..|calls| - 1]) + [calls[|calls| - 1].argv]
  }

  /** The objects after a run. */
  function RunObjects(calls: seq<Call>): Objects {
    if calls == [] then map[]
    else StepObjects(RunObjects(calls[..|calls| - 1]), calls[|calls| - 1].argv, calls[|calls| - 1].now)
  }

  /** The command works on this key and finds or makes a value of its type there. */
  predicate Uses(argv: Argv, db: Db, key: Bytes) {
    var op := OpCode(argv);
    op.Some? && !op.value.DelOp? && KeyOf(argv) == key &&
    var code := EffectOf(op.value, argv, db).code;
    code == Ok || code == Overflow
  }

  /** The last call of the run that used the key, -1 if there is none. */
  function LastUse(calls: seq<Call>, key: Bytes): (i: int)
    ensures -1 <= i < |calls|
  {
    if calls == [] then -1
    else
      var init := calls[..|calls| - 1];
      if Uses(calls[|calls| - 1].argv, Run(Cmds(init)).db, key) then |init| else LastUse(init, key)
  }

  lemma {:induction false} ObjectsAreRun(calls: seq<Call>)
    ensures Values(RunObjects(calls)) == Run(Cmds(calls)).db
  {
    hide Handle, StepObjects;
    if calls == [] {
      NoObjects();
    } else {
      var init, last := calls[..|calls| - 1], calls[|calls| - 1];
      ObjectsAreRun(init);
      RunSnoc(Cmds(init), last.argv);
      StepObjectsValues(RunObjects(init), last.argv, last.now);
    }
  }

  lemma NoObjects()
    ensures Values(map[]) == map[] && Run([]).db == map[]
  {
  }

  /** The values of the objects are what the command leaves in the store. */
  lemma StepObjectsValues(objects: Objects, argv: Argv, now: nat)
    ensures Values(StepObjects(objects, argv, now)) == Handle(argv, Values(objects)).db
  {
    hide OpCode, Act, Values, Named, DeleteAll, Touched;
    var op, db := OpCode(argv), Values(objects);
    if op.Some? {
      if op.value.DelOp? {
        DeleteAllIs(db, argv[1..]);
        ValuesMinus(objects, Named(argv[1..]));
      } else {
        OnlyVisitsChange(op.value, Look(db, KeyOf(argv)), argv[2..]);
        TouchedValues(objects, KeyOf(argv), EffectOf(op.value, argv, db), now);
      }
    }
  }

  /** A call that does not count as a visit changes nothing; one that does leaves a value. */
  lemma OnlyVisitsChange(op: Op, v: Option<Value>, args: seq<Bytes>)
    requires Syntax(op, |args| + 2) && !op.DelOp?
    ensures var e := Act(op, v, args); if Visits(e.code) then e.after.Some? else e.after == v
  {
    hide Canonical, PushAll, UpdateAll, Range;
  }

  /** The recorded visit time of a key is the time of the last call that used it. */
  lemma {:induction false} VisitedIsLastUse(calls: seq<Call>, key: Bytes)
    requires key in RunObjects(calls)
    ensures LastUse(calls, key) >= 0 && RunObjects(calls)[key].visited == calls[LastUse(calls, key)].now
  {
    hide Uses, StepObjects, Run;
    if calls != [] {
      var init, last := calls[..|calls| - 1], calls[|calls| - 1];
      ObjectsAreRun(init);
      StepVisits(RunObjects(init), last.argv, last.now, key);
      if !Uses(last.argv, Run(Cmds(init)).db, key) { VisitedIsLastUse(init, key); }
    }
  }

  lemma StepVisits(objects: Objects, argv: Argv, now: nat, key: Bytes)
    requires key in StepObjects(objects, argv, now)
    ensures var o := StepObjects(objects, argv, now)[key];
      if Uses(argv, Values(objects), key) then o.visited == now else key in objects && o == objects[key]
  {
    hide OpCode, Act, Values, Named;
    var op := OpCode(argv);
    if op.Some? && !op.value.DelOp? {
      OnlyVisitsChange(op.value, Look(Values(objects), KeyOf(argv)), argv[2..]);
    }
  }

  /** A clock that does not go back. */
  ghost predicate Forward(calls: seq<Call>) {
    forall i, j :: 0 <= i <= j < |calls| ==> calls[i].now <= calls[j].now
  }

  method RunTimed(calls: seq<Call>) returns (engine: Engine)
    ensures engine.Valid() && engine.Now() == Run(Cmds(calls)) && engine.container.objects == RunObjects(calls)
    ensures fresh(engine) && fresh(engine.container) && fresh(engine.container.buckets)
  {
    hide Step, StepObjects;
    engine := new Engine();
    for i := 0 to |calls|
      invariant engine.Valid() && engine.Now() == Run(Cmds(calls[..i])) && engine.container.objects == RunObjects(calls[..i])
      invariant fresh(engine) && fresh(engine.container) && fresh(engine.container.buckets)
    {
      assert calls[..i + 1][..i] == calls[..i];
      RunSnoc(Cmds(calls[..i]), calls[i].argv);
      engine.HandleCommand(calls[i].argv, calls[i].now);
    }
    assert calls[..|calls|] == calls;
  }

  /** No key of `sample` was last used before `victim`. */
  ghost predicate LeastRecent(calls: seq<Call>, victim: Bytes, sample: seq<Bytes>) {
    forall k :: k in sample ==>
      var u, w := LastUse(calls, victim), LastUse(calls, k);
      0 <= u && 0 <= w && calls[u].now <= calls[w].now && (u <= w || calls[u].now == calls[w].now)
  }

  lemma OldestIsLeastRecent(calls: seq<Call>, victim: Bytes, sample: seq<Bytes>)
    requires Forward(calls) && victim in RunObjects(calls) && forall k :: k in sample ==> k in RunObjects(calls)
    requires forall k :: k in sample ==> RunObjects(calls)[victim].visited <= RunObjects(calls)[k].visited
    ensures LeastRecent(calls, victim, sample)
  {
    hide RunObjects, LastUse;
    VisitedIsLastUse(calls, victim);
    forall k | k in sample
      ensures var u, w := LastUse(calls, victim), LastUse(calls, k);
        0 <= u && 0 <= w && calls[u].now <= calls[w].now && (u <= w || calls[u].now == calls[w].now)
    {
      VisitedIsLastUse(calls, k);
    }
  }

  /** Behind every run, with a clock that does not go back, one step of LRU eviction takes a sampled key
      whose last use in the run is no later than that of any other sampled key. */
  method RunAndEvict(calls: seq<Call>) returns (engine: Engine, victim: Bytes, sample: seq<Bytes>)
    requires Forward(calls) && RunObjects(calls) != map[]
    ensures engine.Valid() && victim in sample && (forall k :: k in sample ==> k in RunObjects(calls))
    ensures engine.container.objects == RunObjects(calls) - {victim}
    ensures LeastRecent(calls, victim, sample)
  {
    hide RunObjects, LeastRecent, Run, Filed, Pooled, Values;
    engine := RunTimed(calls);
    NotEmpty(engine.container.pool, engine.container.objects);
    ghost var objects := engine.container.objects;
    var deleted;
    victim, deleted, sample := engine.container.KeyEvictionLruHelper([]);
    assert victim in objects;
    OldestIsLeastRecent(calls, victim, sample);
  }

  lemma NotEmpty(pool: seq<Bytes>, objects: Objects)
    requires Pooled(pool, objects) && objects != map[]
    ensures pool != []
  {
    var k :| k in objects;
    assert k in pool;
  }
}
