/** `RecoverCommandFromValue`: one command that recreates a value. */
module Recovery {
  import opened Wrappers
  import opened ByteStrings
  import opened Decimal
  import opened Store
  import opened Commands
  import opened Container
  import opened Compaction

  method RecoverCommandFromValue(container: KVContainer, key: Bytes) returns (cmd: Argv, code: Code)
    requires container.Valid()
    ensures var v := Look(container.Contents(), CStr(key));
            if v.None? then code == KeyNotFound && cmd == []
            else code == Ok && |cmd| >= 2 && cmd[1] == key && Canon(KeyStep(cmd, None)) == Canon(v)
  {
    hide KeyStep, CStr, Word;
    var o := container.Fetch(CStr(key));
    if o.None? { return [], KeyNotFound; }
    code := Ok;
    match o.value.value {
      case Int(n) => cmd := Cmd(SetOp, key, [Dec(n)]); TextRecreated(key, Dec(n));
      case Str(s) => cmd := Cmd(SetOp, key, [s]); TextRecreated(key, s);
      case List(items) => cmd := Cmd(RPushOp, key, items); ListRecreated(key, items);
      case Dict(m) =>
        var args := ListDict(m);
        cmd := Cmd(HSetOp, key, args);
        DictRecreated(key, args, m);
      case Set(x) =>
        var args := ListSet(x);
        cmd := Cmd(SAddOp, key, args);
        SetRecreated(key, args, x);
    }
  }
}

/** From the commands of one engine, through file, compaction and file again, to a second engine. */
module EndToEnd {
  import opened ByteStrings
  import opened Decimal
  import opened Commands
  import opened Compaction
  import opened Engines
  import opened Persistence
  import opened Sizes

  /** Commands that name one key each and count no list index from the end. */
  ghost predicate Plain(argv: Argv) { (Head(argv) == Word(DelOp) ==> |argv| == 2) && !Negative(argv) }

  /** Logs of such commands need no further thought. */
  lemma PlainIsSafe(log: seq<Argv>)
    requires forall c :: c in log ==> Plain(c)
    ensures AllHarmless(log) && Indexed(log)
  {
    hide Word, Negative, Replay;
    forall i | 0 <= i < |log| ensures Harmless(log[i], Replay(log[..i])) { assert Plain(log[i]); }
    forall key ensures NoNegative(Sequential(Group(log, key))) {
      forall c | c in Sequential(Group(log, key)) ensures !Negative(c) {
        QueueKeeps(Group(log, key), c);
        assert Plain(c);
      }
    }
  }

  /** Any compaction of the log of a run restores the store of the run; the run may itself have started
      from a store that was restored from a clean log, such as a compacted one. */
  lemma CompactedRunRestores(cmds: seq<Argv>, out: seq<Argv>, from: State := EMPTY)
    requires Clean(from.log) && Consistent(from)
    requires NeverPopsEmpty(cmds, from) && forall c :: c in cmds ==> Compactable(c)
    requires AllHarmless(Run(cmds, from).log) && Indexed(Run(cmds, from).log) && Compacted(Run(cmds, from).log, out)
    ensures Similar(Replay(out), Run(cmds, from).db)
  {
    hide Run, Clean, Compacted, Similar, Compactable, NeverPopsEmpty, AllHarmless, Indexed;
    EngineLogsClean(cmds, from);
    CompactionPreserves(Run(cmds, from).log, out);
  }

  /** A store restored from a compacted log, with that log in front of what is to come. */
  lemma RestoredIsClean(log: seq<Argv>, out: seq<Argv>)
    requires Clean(log) && Compacted(log, out)
    ensures var from := State(Replay(out), out); Clean(from.log) && Consistent(from)
  {
    hide Clean, Compacted, Formed, AllHarmless, Indexed, Replay;
    CleanForms(log);
    CompactedIsClean(log, out);
  }

  /** A cut of a file into the chunks that reads deliver. */
  ghost predicate Cuts(cut: Bytes -> seq<Bytes>) {
    forall b :: Loader.Concat(cut(b)) == b && forall i :: 0 <= i < |cut(b)| ==> cut(b)[i] != []
  }

  /** Appends and flushes in any interleaving, then the file is closed. */
  method WriteLog(calls: seq<AppendLog.Call>, capacity: nat) returns (f: AppendableFile)
    ensures fresh(f) && f.Valid() && multiset(f.written) == multiset(AppendLog.Appended(calls))
    ensures AppendLog.AlwaysHarmless(calls, capacity) ==> f.written == AppendLog.Appended(calls)
  {
    hide Resp.EncodeAll, AppendLog.Appended, AppendLog.Step, AppendLog.AlwaysHarmless;
    f := new AppendableFile(capacity);
    for i := 0 to |calls|
      invariant fresh(f) && f.Valid() && f.capacity == capacity && f.Now() == AppendLog.Run(calls[..i], capacity)
    {
      assert calls[..i + 1][..i] == calls[..i];
      Perform(f, calls[i]);
    }
    assert calls[..|calls|] == calls;
    AppendLog.BagKept(calls, capacity);
    AppendLog.OrderKept(calls, capacity);
    f.Close();
  }

  method Perform(f: AppendableFile, call: AppendLog.Call)
    requires f.Valid()
    modifies f
    ensures f.Valid() && f.Now() == AppendLog.Step(old(f.Now()), call, f.capacity)
  {
    match call {
      case AppendCall(cmd) => f.Append(cmd);
      case FlushCall(opens) => f.Flush(opens);
    }
  }

  /** Rewriting a log file: read in any chunks, compact, write, close. */
  method Rewrite(f: AppendableFile, cut: Bytes -> seq<Bytes>, capacity: nat) returns (g: AppendableFile)
    requires f.Valid() && Cuts(cut) && Loader.AllFit(f.written)
    requires Clean(f.written) && AllHarmless(f.written) && Indexed(f.written)
    ensures fresh(g) && g.Valid() && Compacted(f.written, g.written)
    ensures Similar(Replay(g.written), Replay(f.written))
  {
    hide Clean, AllHarmless, Indexed, Compacted, Resp.EncodeAll, Similar, Defined;
    g := new AppendableFile(capacity);
    ghost var log := f.written;
    CleanIsDefined(log);
    var out := RemoveRedundancy(g, cut(f.file), log);
    g.Close();
    assert multiset(g.written) == multiset(out);
    AnyOrder(log, out, g.written);
    CompactionPreserves(log, g.written);
  }

  /** Commands run, logged, flushed in any interleaving that keeps the order, read back in any chunks,
      compacted, written, read back in any chunks and replayed give the same store, up to empty
      collections and integers in decimal. */
  method RestartCompacted(cmds: seq<Argv>, calls: seq<AppendLog.Call>, capacity: nat, cut: Bytes -> seq<Bytes>)
    returns (first: Engine, second: Engine)
    requires NeverPopsEmpty(cmds) && forall c :: c in cmds ==> Compactable(c)
    requires AllHarmless(Run(cmds).log) && Indexed(Run(cmds).log)
    requires AppendLog.Appended(calls) == Run(cmds).log && AppendLog.AlwaysHarmless(calls, capacity)
    requires Cuts(cut) && 2 * LogWeight(Run(cmds).log) + 62 <= INT64_MAX
    ensures first.Valid() && second.Valid() && first.Now() == Run(cmds)
    ensures Similar(second.container.Contents(), first.container.Contents())
  {
    hide Run, Clean, AllHarmless, Indexed, Compacted, LogWeight, Resp.EncodeAll, Similar, Compactable, NeverPopsEmpty, AppendLog.AlwaysHarmless;
    first := RunAll(cmds);
    EmptyIsClean();
    EngineLogsClean(cmds);
    var f := WriteLog(calls, capacity);
    LogFits(f.written);
    var g := Rewrite(f, cut, capacity);
    OutputFits(f.written, g.written);
    var restored := Loader.CommonOperation(cut(g.file), g.written);
    second := RunAll(restored);
    RunIsReplay(restored);
  }

  /** The same without compaction gives back the very store. */
  method Restart(cmds: seq<Argv>, calls: seq<AppendLog.Call>, capacity: nat, cut: Bytes -> seq<Bytes>)
    returns (first: Engine, second: Engine)
    requires NeverPopsEmpty(cmds) && Cuts(cut) && Loader.AllFit(Run(cmds).log)
    requires AppendLog.Appended(calls) == Run(cmds).log && AppendLog.AlwaysHarmless(calls, capacity)
    ensures first.Valid() && second.Valid() && first.Now() == Run(cmds)
    ensures second.container.Contents() == first.container.Contents()
  {
    hide Run, Resp.EncodeAll, NeverPopsEmpty, AppendLog.AlwaysHarmless;
    first := RunAll(cmds);
    var f := WriteLog(calls, capacity);
    var restored := Loader.CommonOperation(cut(f.file), f.written);
    second := RunAll(restored);
    RunIsReplay(restored);
  }
}
