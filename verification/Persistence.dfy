/** `AppendableFile`: two command caches in front of the log file. */
module AppendLog {
  import opened Commands

  /** The caches, and the commands the file holds. */
  datatype Caches = Caches(cur: seq<Argv>, backup: seq<Argv>, written: seq<Argv>)

  datatype Call = AppendCall(cmd: Argv) | FlushCall(opens: bool)

  function Switch(s: Caches): Caches { s.(cur := s.backup, backup := s.cur) }

  function Append(s: Caches, cmd: Argv, capacity: nat): Caches {
    var s := if |s.cur| >= capacity then Switch(s) else s;
    s.(cur := s.cur + [cmd])
  }

  /** A flush writes the backup cache, or the current one if there is no backup. */
  function Flush(s: Caches, opens: bool): Caches {
    if s.backup == [] && s.cur == [] then s
    else
      var s := if s.backup == [] then Switch(s) else s;
      if opens then s.(written := s.written + s.backup, backup := []) else s
  }

  function Step(s: Caches, call: Call, capacity: nat): Caches {
    match call
    case AppendCall(cmd) => Append(s, cmd, capacity)
    case FlushCall(opens) => Flush(s, opens)
  }

  function Run(calls: seq<Call>, capacity: nat): Caches {
    if calls == [] then Caches([], [], []) else Step(Run(calls[..|calls| - 1], capacity), calls[|calls| - 1], capacity)
  }

  /** The commands handed over, in order. */
  function Appended(calls: seq<Call>): seq<Argv> {
    if calls == [] then []
    else
      var before, last := Appended(calls[..|calls| - 1]), calls[|calls| - 1];
      if last.AppendCall? then before + [last.cmd] else before
  }

  function Bag(s: Caches): multiset<Argv> { multiset(s.written) + multiset(s.backup) + multiset(s.cur) }

  /** File, backup and current cache, read in this order. */
  function InOrder(s: Caches): seq<Argv> { s.written + s.backup + s.cur }

  /** A step keeps the order unless it switches caches that cannot change places. */
  predicate Harmless(s: Caches, call: Call, capacity: nat) {
    call.AppendCall? && |s.cur| >= capacity ==> s.backup + s.cur == s.cur + s.backup
  }

  /** A flush brings a whole cache to the file if that opens, the backup before the other, and leaves
      the file alone if it does not. */
  lemma FlushWrites(s: Caches)
    ensures s.backup != [] ==> Flush(s, true) == Caches(s.cur, [], s.written + s.backup)
    ensures s.backup == [] ==> Flush(s, true) == Caches([], [], s.written + s.cur)
    ensures Flush(s, false).written == s.written && Bag(Flush(s, false)) == Bag(s)
  {
    if s.backup == [] && s.cur == [] { assert s.written + s.cur == s.written; }
  }

  /** An append touches the file in no case, and turns to the other cache exactly when the current one is full. */
  lemma AppendKeepsFile(s: Caches, cmd: Argv, capacity: nat)
    ensures Append(s, cmd, capacity).written == s.written
    ensures |s.cur| < capacity ==> Append(s, cmd, capacity) == Caches(s.cur + [cmd], s.backup, s.written)
    ensures |s.cur| >= capacity ==> Append(s, cmd, capacity) == Caches(s.backup + [cmd], s.cur, s.written)
  {
  }

  lemma {:induction false} BagKept(calls: seq<Call>, capacity: nat)
    ensures Bag(Run(calls, capacity)) == multiset(Appended(calls))
  {
    if calls != [] {
      var init, last := calls[..|calls| - 1], calls[|calls| - 1];
      BagKept(init, capacity);
      BagStep(Run(init, capacity), last, capacity);
      var before := Appended(init);
      hide Run;
      if last.AppendCall? { assert multiset(before + [last.cmd]) == multiset(before) + multiset{last.cmd}; }
    }
  }

  lemma BagStep(s: Caches, call: Call, capacity: nat)
    ensures Bag(Step(s, call, capacity)) == Bag(s) + if call.AppendCall? then multiset{call.cmd} else multiset{}
  {
  }

  /** From an ordered state, a step leaves an ordered state exactly when it is harmless. */
  lemma OrderStep(s: Caches, call: Call, capacity: nat)
    ensures InOrder(Step(s, call, capacity)) == InOrder(s) + (if call.AppendCall? then [call.cmd] else [])
            <==> Harmless(s, call, capacity)
  {
    var t := Step(s, call, capacity);
    if call.AppendCall? && |s.cur| >= capacity {
      var x := s.cur + s.backup;
      assert InOrder(t) == s.written + x + [call.cmd];
      assert InOrder(s) + [call.cmd] == s.written + (s.backup + s.cur) + [call.cmd];
      Cancel(s.written, x, s.backup + s.cur, [call.cmd]);
    } else if call.AppendCall? {
      assert InOrder(t) == InOrder(s) + [call.cmd];
    } else {
      assert InOrder(t) == InOrder(s) + [];
    }
  }

  lemma Cancel(a: seq<Argv>, x: seq<Argv>, y: seq<Argv>, b: seq<Argv>)
    requires |x| == |y|
    ensures a + x + b == a + y + b <==> x == y
  {
    if a + x + b == a + y + b {
      assert (a + x + b)[|a|..|a| + |x|] == x && (a + y + b)[|a|..|a| + |x|] == y;
    }
  }

  ghost predicate AlwaysOrdered(calls: seq<Call>, capacity: nat) {
    forall i :: 0 <= i <= |calls| ==> InOrder(Run(calls[..i], capacity)) == Appended(calls[..i])
  }

  ghost predicate AlwaysHarmless(calls: seq<Call>, capacity: nat) {
    forall i :: 0 <= i < |calls| ==> Harmless(Run(calls[..i], capacity), calls[i], capacity)
  }

  lemma OrderedSnoc(init: seq<Call>, last: Call, capacity: nat)
    ensures var calls := init + [last];
            && (AlwaysOrdered(calls, capacity) <==>
                AlwaysOrdered(init, capacity) && InOrder(Run(calls, capacity)) == Appended(calls))
            && (AlwaysHarmless(calls, capacity) <==>
                AlwaysHarmless(init, capacity) && Harmless(Run(init, capacity), last, capacity))
  {
    hide Run, Appended, InOrder, Harmless;
    var calls := init + [last];
    assert calls[..|calls|] == calls && calls[..|init|] == init && calls[|init|] == last;
    assert forall i :: 0 <= i <= |init| ==> init[..i] == calls[..i];
    assert forall i :: 0 <= i < |init| ==> init[i] == calls[i];
  }

  /** File and caches hold the commands in the order they came at every point of a run exactly when
      each switch finds caches that commute; an empty backup cache always does. */
  lemma {:induction false} OrderKept(calls: seq<Call>, capacity: nat)
    ensures AlwaysOrdered(calls, capacity) <==> AlwaysHarmless(calls, capacity)
  {
    hide Step, Harmless, InOrder;
    if calls == [] {
      EmptyOrdered(capacity);
    } else {
      var init, last := calls[..|calls| - 1], calls[|calls| - 1];
      assert calls == init + [last];
      OrderKept(init, capacity);
      OrderedSnoc(init, last, capacity);
      if AlwaysOrdered(init, capacity) {
        assert init[..|init|] == init;
        OrderStep(Run(init, capacity), last, capacity);
        assert Appended(calls) == Appended(init) + if last.AppendCall? then [last.cmd] else [];
      }
      hide AlwaysOrdered, AlwaysHarmless;
    }
  }

  lemma EmptyOrdered(capacity: nat)
    ensures AlwaysOrdered([], capacity) && AlwaysHarmless([], capacity)
  {
  }

  lemma EmptyBackupIsHarmless(s: Caches, call: Call, capacity: nat)
    requires s.backup == []
    ensures Harmless(s, call, capacity)
  {
    assert s.backup + s.cur == s.cur + s.backup;
  }

  /** Three different commands into caches of one, with no flush in between: the second switch puts
      the second command in front of the first. */
  lemma SwitchReorders(a: Argv, b: Argv, c: Argv)
    requires a != b
    ensures var calls := [AppendCall(a), AppendCall(b), AppendCall(c)];
            Appended(calls) == [a, b, c] && InOrder(Run(calls, 1)) == [b, a, c]
  {
    var calls := [AppendCall(a), AppendCall(b), AppendCall(c)];
    assert calls[..2] == [AppendCall(a), AppendCall(b)] && calls[..2][..1] == [AppendCall(a)] && calls[..1][..0] == [];
    assert Run(calls[..1], 1) == Caches([a], [], []);
    assert Run(calls[..2], 1) == Caches([b], [a], []);
    assert Run(calls, 1) == Caches([a, c], [b], []);
    assert Appended(calls[..1]) == [a] && Appended(calls[..2]) == [a, b];
  }
}

/** The log file, and its compaction. */
module Persistence {
  import opened Wrappers
  import opened ByteStrings
  import opened Decimal
  import opened Store
  import opened Commands
  import opened Compaction
  import Container
  import Resp
  import Loader
  import AppendLog

  lemma {:induction false} EncodeAllSnoc(cmds: seq<Argv>, c: Argv)
    ensures Resp.EncodeAll(cmds + [c]) == Resp.EncodeAll(cmds) + Resp.Encode(c)
  {
    if cmds == [] {
      assert Resp.EncodeAll([c]) == Resp.Encode(c) + [] by { assert [c][1..] == []; }
    } else {
      EncodeAllSnoc(cmds[1..], c);
      assert (cmds + [c])[1..] == cmds[1..] + [c];
    }
  }

  class AppendableFile {
    const capacity: nat
    var cur: seq<Argv>
    var backup: seq<Argv>
    var file: Bytes
    ghost var written: seq<Argv>

    ghost predicate Valid()
      reads this
    {
      file == Resp.EncodeAll(written)
    }

    ghost function Now(): AppendLog.Caches
      reads this
    {
      AppendLog.Caches(cur, backup, written)
    }

    constructor (capacity: nat)
      ensures Valid() && Now() == AppendLog.Run([], capacity) && this.capacity == capacity
    {
      this.capacity := capacity;
      cur, backup, file, written := [], [], [], [];
    }

    method Switch()
      requires Valid()
      modifies this
      ensures Valid() && Now() == AppendLog.Switch(old(Now()))
    {
      cur, backup := backup, cur;
    }

    method Append(cmd: Argv)
      requires Valid()
      modifies this
      ensures Valid() && Now() == AppendLog.Append(old(Now()), cmd, capacity) && file == old(file)
    {
      if |cur| >= capacity { Switch(); }
      cur := cur + [cmd];
    }

    method WriteBackup()
      requires Valid()
      modifies this
      ensures Valid() && cur == old(cur) && backup == [] && written == old(written) + old(backup)
    {
      hide Resp.EncodeAll, Resp.Encode;
      var items := backup;
      for i := 0 to |items|
        invariant Valid() && cur == old(cur) && written == old(written) + items[..i]
      {
        var bytes := Loader.ToProtocolString(items[i]);
        EncodeAllSnoc(written, items[i]);
        file := file + bytes;
        written := written + [items[i]];
      }
      backup := [];
    }

    method Flush(opens: bool)
      requires Valid()
      modifies this
      ensures Valid() && Now() == AppendLog.Flush(old(Now()), opens)
    {
      if backup == [] {
        if cur == [] { return; }
        Switch();
      }
      if opens { WriteBackup(); }
    }

    /** The last flush of the worker and the flush behind it bring everything to the file, in order. */
    method Close()
      requires Valid()
      modifies this
      ensures Valid() && cur == [] && backup == [] && written == AppendLog.InOrder(old(Now()))
      ensures multiset(written) == AppendLog.Bag(old(Now()))
    {
      Flush(true);
      Switch();
      Flush(true);
    }
  }

  // ----- Compaction -----

  /** No key drives the simulation into undefined behaviour. */
  ghost predicate Defined(log: seq<Argv>) {
    && (forall c :: c in log ==> |c| >= 2)
    && (forall key :: KeyDefined(Group(log, key)))
  }

  ghost predicate KeyDefined(cmds: seq<Argv>) {
    var q := Sequential(cmds);
    q != [] ==> var s := Simulate(q, |q|); s.Some? && s.value.kind.Some?
  }

  method Enqueue(cmds: seq<Argv>) returns (queue: seq<Argv>)
    ensures queue == Sequential(cmds)
  {
    hide Word;
    queue := [];
    for i := 0 to |cmds|
      invariant queue == Sequential(cmds[..i])
    {
      var op := Head(cmds[i]);
      if op == Word(DelOp) || op == Word(SetOp) { queue := []; }
      if op != Word(DelOp) { queue := queue + [cmds[i]]; }
      assert cmds[..i + 1][..i] == cmds[..i] && cmds[..i + 1][i] == cmds[i];
    }
    assert cmds[..|cmds|] == cmds;
  }

  // ----- The loops over the operands of one simulated command -----

  method PushOperands(list: seq<Bytes>, operands: Argv, left: bool) returns (r: seq<Bytes>)
    requires |operands| >= 2
    ensures r == PushAll(list, operands[2..], left)
  {
    hide PushAll;
    r := list;
    Container.PushNone(list, left);
    assert operands[2..2] == [];
    for i := 2 to |operands|
      invariant r == PushAll(list, operands[2..i], left)
    {
      PushAllSnoc(list, operands[2..i], operands[i], left);
      assert operands[2..i + 1] == operands[2..i] + [operands[i]];
      r := if left then [operands[i]] + r else r + [operands[i]];
    }
    assert operands[2..|operands|] == operands[2..];
  }

  method SetFields(dict: map<Bytes, Bytes>, operands: Argv) returns (r: map<Bytes, Bytes>)
    requires |operands| >= 2 && |operands| % 2 == 0
    ensures r == UpdateAll(dict, operands[2..])
  {
    r := dict;
    var i := 2;
    assert operands[2..2] == [];
    while i < |operands|
      invariant 2 <= i <= |operands| && i % 2 == 0 && r == UpdateAll(dict, operands[2..i])
    {
      UpdateAllSnoc(dict, operands[2..i], operands[i], operands[i + 1]);
      assert operands[2..i + 2] == operands[2..i] + [operands[i], operands[i + 1]];
      r, i := r[operands[i] := operands[i + 1]], i + 2;
    }
    assert operands[2..|operands|] == operands[2..];
  }

  /** One round of the simulation, buffer by buffer. */
  method Execute(s: Sim, operands: Argv, alone: bool) returns (r: Sim)
    requires SimStep(s, operands, alone).Some?
    ensures r == SimStep(s, operands, alone).value
  {
    hide PushAll, UpdateAll, Range, Canonical, Dec, Word, OpOf, Operand, Index, AddTo;
    r := s;
    match OpOf(operands[0]).value {
      case LPushOp | RPushOp =>
        var list := PushOperands(s.list, operands, OpOf(operands[0]).value.LPushOp?);
        r := s.(list := list, kind := Some(ListKind));
      case LPopOp => r := s.(list := s.list[1..], kind := Some(ListKind));
      case RPopOp => r := s.(list := s.list[..|s.list| - 1], kind := Some(ListKind));
      case LSetOp => r := s.(list := s.list[Index(operands).value := operands[3]], kind := Some(ListKind));
      case HSetOp =>
        var dict := SetFields(s.dict, operands);
        r := s.(dict := dict, kind := Some(HashKind));
      case HDelOp =>
        var dict, erased := Container.FieldsErased(s.dict, operands[2..]);
        r := s.(dict := dict, kind := Some(HashKind));
      case SAddOp =>
        var members, count := Container.Inserted(s.members, operands[2..]);
        r := s.(members := members, kind := Some(SetKind));
      case SRemOp =>
        var members, erased := Container.MembersErased(s.members, operands[2..]);
        r := s.(members := members, kind := Some(SetKind));
      case AppendOp => r := s.(text := s.text + operands[2], kind := Some(StringKind));
      case IncrOp => r := AddTo(s, Some(1), 1).value;
      case DecrOp => r := AddTo(s, Some(1), -1).value;
      case IncrByOp => r := AddTo(s, Operand(operands), 1).value;
      case DecrByOp => r := AddTo(s, Operand(operands), -1).value;
      case SetOp => r := if alone then s.(kind := Some(OtherKind)) else s.(text := operands[2], kind := Some(OtherKind));
    }
  }

  /** The command written for one key, if any. */
  method CompactKey(key: Bytes, cmds: seq<Argv>) returns (out: seq<Argv>)
    requires KeyDefined(cmds)
    ensures KeyDone(key, cmds, out)
  {
    hide SimStep, ListsDict, ListsSet, Cmd;
    var queue := Enqueue(cmds);
    ghost var q := queue;
    if queue == [] { return []; }
    var front := queue[0];
    var sim, n := START, 0;
    while queue != []
      invariant n <= |q| && queue == q[n..] && Simulate(q, n) == Some(sim)
      decreases |queue|
    {
      AllDefined(q, n + 1);
      sim := Execute(sim, queue[0], |queue| == 1);
      queue, n := queue[1..], n + 1;
    }
    match sim.kind.value {
      case OtherKind => out := [front];
      case ListKind => out := [Cmd(RPushOp, key, sim.list)];
      case HashKind =>
        var args := ListDict(sim.dict);
        out := [Cmd(HSetOp, key, args)];
      case SetKind =>
        var args := ListSet(sim.members);
        out := [Cmd(SAddOp, key, args)];
      case _ => out := [Cmd(SetOp, key, [sim.text])];
    }
  }

  lemma {:induction false} AllDefined(q: seq<Argv>, n: nat)
    requires n <= |q| && Simulate(q, |q|).Some?
    ensures Simulate(q, n).Some?
    decreases |q| - n
  {
    hide SimStep;
    if n < |q| { AllDefined(q, n + 1); }
  }

  /** Each key of the log has its commands, in order. */
  ghost predicate Grouped(groups: map<Bytes, seq<Argv>>, log: seq<Argv>) {
    forall key :: Group(log, key) == if key in groups then groups[key] else []
  }

  function Join(groups: map<Bytes, seq<Argv>>, key: Bytes, c: Argv): map<Bytes, seq<Argv>> {
    groups[key := (if key in groups then groups[key] else []) + [c]]
  }

  lemma GroupedSnoc(groups: map<Bytes, seq<Argv>>, log: seq<Argv>, c: Argv)
    requires Grouped(groups, log) && |c| >= 2
    ensures Grouped(Join(groups, c[1], c), log + [c])
  {
    hide Group;
    var more := Join(groups, c[1], c);
    forall key ensures Group(log + [c], key) == if key in more then more[key] else [] { GroupSnoc(log, c, key); }
  }

  method Populate(log: seq<Argv>) returns (groups: map<Bytes, seq<Argv>>)
    requires forall c :: c in log ==> |c| >= 2
    ensures Grouped(groups, log)
  {
    groups := map[];
    hide Grouped, Join;
    NoGroups();
    for i := 0 to |log|
      invariant Grouped(groups, log[..i])
    {
      assert log[i] in log;
      assert log[..i + 1] == log[..i] + [log[i]];
      GroupedSnoc(groups, log[..i], log[i]);
      groups := Join(groups, log[i][1], log[i]);
    }
    assert log[..|log|] == log;
  }

  lemma NoGroups()
    ensures Grouped(map[], [])
  {
  }

  ghost predicate Progress(log: seq<Argv>, out: seq<Argv>, left: set<Bytes>) {
    && (forall c :: c in out ==> |c| >= 2)
    && (forall key :: if key in left then Group(out, key) == [] else KeyDone(key, Group(log, key), Group(out, key)))
  }

  lemma ProgressStep(log: seq<Argv>, out: seq<Argv>, left: set<Bytes>, key: Bytes, more: seq<Argv>)
    requires Progress(log, out, left) && key in left && KeyDone(key, Group(log, key), more) && OneFor(key, more)
    ensures Progress(log, out + more, left - {key})
  {
    hide KeyDone, Group, OneFor;
    forall k ensures Group(out + more, k) == if k == key then Group(out, k) + more else Group(out, k) {
      GroupMore(out, key, more, k);
    }
    OneForLength(key, more);
    assert [] + more == more;
  }

  lemma OneForLength(key: Bytes, more: seq<Argv>)
    requires OneFor(key, more)
    ensures forall c :: c in more ==> |c| >= 2
  {
  }

  lemma GroupMore(out: seq<Argv>, key: Bytes, more: seq<Argv>, k: Bytes)
    requires OneFor(key, more)
    ensures Group(out + more, k) == if k == key then Group(out, k) + more else Group(out, k)
  {
    hide Group;
    if more == [] {
      assert out + more == out;
    } else {
      assert more == [more[0]];
      GroupSnoc(out, more[0], k);
    }
  }

  ghost predicate OneFor(key: Bytes, more: seq<Argv>) {
    |more| <= 1 && (forall c :: c in more ==> |c| >= 2 && c[1] == key)
  }

  lemma EmitsKey(key: Bytes, q: seq<Argv>, s: Sim, c: Argv)
    requires Emits(key, q, s, c) && (q != [] ==> |q[0]| >= 2 && q[0][1] == key)
    ensures |c| >= 2 && c[1] == key
  {
    hide Word, ListsDict, ListsSet;
  }

  lemma DoneIsOne(log: seq<Argv>, key: Bytes, more: seq<Argv>)
    requires KeyDone(key, Group(log, key), more)
    ensures OneFor(key, more)
  {
    hide Simulate, Emits, Sequential, Group;
    var q := Sequential(Group(log, key));
    if q != [] {
      FrontKey(log, key, q);
      EmitsKey(key, q, Simulate(q, |q|).value, more[0]);
      assert more == [more[0]];
    }
  }

  lemma FrontKey(log: seq<Argv>, key: Bytes, q: seq<Argv>)
    requires q == Sequential(Group(log, key)) && q != []
    ensures |q[0]| >= 2 && q[0][1] == key
  {
    hide Sequential;
    QueueKeeps(Group(log, key), q[0]);
  }

  lemma NothingDone(log: seq<Argv>, keys: set<Bytes>)
    requires forall key :: key !in keys ==> Group(log, key) == []
    ensures Progress(log, [], keys)
  {
  }

  /** Compaction of one key into the caches. */
  method CompactInto(target: AppendableFile, key: Bytes, cmds: seq<Argv>, ghost log: seq<Argv>) returns (more: seq<Argv>)
    requires target.Valid() && cmds == Group(log, key) && KeyDefined(cmds)
    modifies target
    ensures target.Valid() && target.file == old(target.file) && KeyDone(key, cmds, more) && OneFor(key, more)
    ensures AppendLog.Bag(target.Now()) == AppendLog.Bag(old(target.Now())) + multiset(more)
  {
    hide KeyDone, Group, KeyDefined, Resp.EncodeAll, AppendLog.Bag;
    more := CompactKey(key, cmds);
    DoneIsOne(log, key, more);
    if more != [] {
      AppendLog.BagStep(target.Now(), AppendLog.AppendCall(more[0]), target.capacity);
      target.Append(more[0]);
      assert more == [more[0]];
    }
  }

  /** `RemoveRedundancy`: reads a log in any chunks and hands its compaction to the caches. */
  method RemoveRedundancy(target: AppendableFile, chunks: seq<Bytes>, ghost log: seq<Argv>) returns (out: seq<Argv>)
    requires target.Valid() && Defined(log) && Loader.AllFit(log)
    requires Loader.Concat(chunks) == Resp.EncodeAll(log) && forall i :: 0 <= i < |chunks| ==> chunks[i] != []
    modifies target
    ensures target.Valid() && Compacted(log, out)
    ensures AppendLog.Bag(target.Now()) == AppendLog.Bag(old(target.Now())) + multiset(out)
    ensures target.file == old(target.file)
  {
    hide KeyDone, Group, KeyDefined, Resp.EncodeAll, AppendLog.Bag, OneFor, Progress;
    var cmds := Loader.CommonOperation(chunks, log);
    var groups := Populate(cmds);
    out := [];
    var left := groups.Keys;
    NothingDone(log, left);
    while left != {}
      invariant target.Valid() && target.file == old(target.file)
      invariant left <= groups.Keys && Progress(log, out, left)
      invariant AppendLog.Bag(target.Now()) == AppendLog.Bag(old(target.Now())) + multiset(out)
      decreases |left|
    {
      var key :| key in left;
      assert Group(log, key) == groups[key];
      var more := CompactInto(target, key, groups[key], log);
      ProgressStep(log, out, left, key, more);
      assert multiset(out + more) == multiset(out) + multiset(more);
      out, left := out + more, left - {key};
    }
    AllDone(log, out);
  }

  lemma AllDone(log: seq<Argv>, out: seq<Argv>)
    requires Progress(log, out, {})
    ensures Compacted(log, out)
  {
    hide KeyDone, Group;
  }

  /** A clean log with harmless deletions and indices never drives the compactor into undefined behaviour. */
  lemma CleanIsDefined(log: seq<Argv>)
    requires Clean(log) && AllHarmless(log) && Indexed(log)
    ensures Defined(log)
  {
    hide Clean, AllHarmless, KeyDefined, NoNegative, Sequential, Formed, Tracks, Replay;
    CleanForms(log);
    forall c | c in log ensures |c| >= 2 { FormedLength(c); }
    forall key ensures KeyDefined(Group(log, key)) {
      LogTracks(log, key);
      TrackedIsDefined(Group(log, key), Look(Replay(log), key));
    }
  }

  lemma TrackedIsDefined(cmds: seq<Argv>, v: Option<Value>)
    requires (forall c :: c in cmds ==> Formed(c)) && Tracks(Sequential(cmds), v) && NoNegative(Sequential(cmds))
    ensures KeyDefined(cmds)
  {
    hide Formed, Coupled, SimStep, Sequential, Tidy, SetAlone, NoNegative;
    var q := Sequential(cmds);
    if SetAlone(q) {
      AloneFront(q);
      QueueKeeps(cmds, q[0]);
      SimulateAlone(q);
    } else if q != [] {
      SimulateWhole(q);
    }
  }

  // ----- There is always something to write -----

  lemma {:induction false} DictListing(m: map<Bytes, Bytes>) returns (args: seq<Bytes>)
    ensures ListsDict(args, m)
    decreases |m|
  {
    hide UpdateAll;
    if m == map[] {
      args := [];
      NoUpdates();
    } else {
      var f :| f in m;
      var rest := m - {f};
      MinusOneLess(m, {f}, f);
      assert m - ({f} - {f}) == m;
      args := DictListing(rest);
      UpdateAllSnoc(map[], args, f, m[f]);
      args := args + [f, m[f]];
    }
  }

  lemma {:induction false} SetListing(x: set<Bytes>) returns (args: seq<Bytes>)
    ensures ListsSet(args, x)
    decreases |x|
  {
    if x == {} {
      args := [];
    } else {
      var y :| y in x;
      args := SetListing(x - {y});
      RangeAppend(args, y);
      hide Range;
      args := args + [y];
      assert x == (x - {y}) + {y};
    }
  }

  lemma Emission(key: Bytes, cmds: seq<Argv>) returns (g: seq<Argv>)
    requires KeyDefined(cmds)
    ensures KeyDone(key, cmds, g)
  {
    hide Simulate, Sequential, ListsDict, ListsSet, Cmd;
    var q := Sequential(cmds);
    if q == [] {
      g := [];
    } else {
      var s := Simulate(q, |q|).value;
      match s.kind.value
      case OtherKind => g := [q[0]];
      case ListKind => g := [Cmd(RPushOp, key, s.list)];
      case HashKind => var args := DictListing(s.dict); g := [Cmd(HSetOp, key, args)];
      case SetKind => var args := SetListing(s.members); g := [Cmd(SAddOp, key, args)];
      case _ => g := [Cmd(SetOp, key, [s.text])];
    }
  }

  lemma {:induction false} CompactRest(log: seq<Argv>, out: seq<Argv>, left: set<Bytes>) returns (all: seq<Argv>)
    requires Defined(log) && Progress(log, out, left)
    ensures Compacted(log, all)
    decreases |left|
  {
    hide KeyDone, Group, KeyDefined, OneFor, Progress;
    if left == {} {
      AllDone(log, out);
      all := out;
    } else {
      var key :| key in left;
      var more := Emission(key, Group(log, key));
      DoneIsOne(log, key, more);
      ProgressStep(log, out, left, key, more);
      all := CompactRest(log, out + more, left - {key});
    }
  }

  /** A log on which the compactor is defined has a compaction. */
  lemma CompactionExists(log: seq<Argv>) returns (out: seq<Argv>)
    requires Defined(log)
    ensures Compacted(log, out)
  {
    hide KeyDefined, Progress, KeyDone;
    var keys := set c | c in log && |c| >= 2 :: c[1];
    forall key | Group(log, key) != [] ensures key in keys {
      assert Group(log, key)[0] in Group(log, key);
    }
    NothingDone(log, keys);
    out := CompactRest(log, [], keys);
  }
}
