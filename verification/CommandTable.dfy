/** What each command does to a store, by the bytes of its name. */
module CommandTable {
  import opened Wrappers
  import opened ByteStrings
  import opened Decimal
  import opened Store
  import opened Commands

  const SET: Bytes := [115, 101, 116]
  const DEL: Bytes := [100, 101, 108]
  const INCR: Bytes := [105, 110, 99, 114]
  const DECR: Bytes := [100, 101, 99, 114]
  const INCRBY: Bytes := [105, 110, 99, 114, 98, 121]
  const DECRBY: Bytes := [100, 101, 99, 114, 98, 121]
  const APPEND: Bytes := [97, 112, 112, 101, 110, 100]
  const LPUSH: Bytes := [108, 112, 117, 115, 104]
  const RPUSH: Bytes := [114, 112, 117, 115, 104]
  const LPOP: Bytes := [108, 112, 111, 112]
  const RPOP: Bytes := [114, 112, 111, 112]
  const LSETINDEX: Bytes := [108, 115, 101, 116, 105, 110, 100, 101, 120]
  const HSET: Bytes := [104, 115, 101, 116]
  const HDEL: Bytes := [104, 100, 101, 108]
  const SADD: Bytes := [115, 97, 100, 100]
  const SREM: Bytes := [115, 114, 101, 109]

  lemma Names()
    ensures Word(SetOp) == SET && Word(DelOp) == DEL && Word(IncrOp) == INCR && Word(DecrOp) == DECR
    ensures Word(IncrByOp) == INCRBY && Word(DecrByOp) == DECRBY && Word(AppendOp) == APPEND
    ensures Word(LPushOp) == LPUSH && Word(RPushOp) == RPUSH && Word(LPopOp) == LPOP && Word(RPopOp) == RPOP
    ensures Word(LSetOp) == LSETINDEX && Word(HSetOp) == HSET && Word(HDelOp) == HDEL
    ensures Word(SAddOp) == SADD && Word(SRemOp) == SREM
  {
  }

  /** How many arguments, the name included, each command takes. */
  lemma Arities(op: Op, len: nat)
    ensures Syntax(op, len) <==>
      match op
      case IncrOp | DecrOp | LPopOp | RPopOp => len == 2
      case SetOp | IncrByOp | DecrByOp | AppendOp => len == 3
      case LSetOp => len == 4
      case DelOp => len >= 2
      case LPushOp | RPushOp | HDelOp | SAddOp | SRemOp => len >= 3
      case HSetOp => len >= 4 && len % 2 == 0
  {
  }

  /** A known command with a wrong number of arguments, like an unknown one, does nothing. */
  lemma Refuses(argv: Argv, db: Db)
    requires argv != []
    requires forall op :: Recased(argv[0], Word(op)) ==> !Syntax(op, |argv|)
    ensures Handle(argv, db) == Handled(db, false)
  {
    hide OpOf, Recased, Word, Lower, Syntax, Act;
    var op := OpOf(Lower(argv[0]));
    if op.Some? { AnyCasing(op.value, argv[0]); }
  }

  /** On a key that holds `v`, the command with these operands leaves `after`, touches no other key,
      and is logged or not. */
  ghost predicate Does(name: Bytes, v: Option<Value>, args: seq<Bytes>, after: Option<Value>, logged: bool) {
    forall db, key :: NulFree(key) && Look(db, key) == v ==>
      Handle([name, key] + args, db) == Handled(Put(db, key, after), logged)
  }

  lemma DoesAct(op: Op, v: Option<Value>, args: seq<Bytes>)
    requires !op.DelOp? && Syntax(op, |args| + 2)
    ensures var e := Act(op, v, args); Does(Word(op), v, args, e.after, Logs(op, e))
  {
    hide Act, Logs, Handle, Word, Syntax;
    forall db, key | NulFree(key) && Look(db, key) == v
      ensures var e := Act(op, v, args); Handle([Word(op), key] + args, db) == Handled(Put(db, key, e.after), Logs(op, e))
    {
      HandleCmd(op, key, args, db);
    }
  }

  lemma DoesIt(name: Bytes, v: Option<Value>, args: seq<Bytes>, after: Option<Value>, logged: bool, db: Db, key: Bytes)
    requires Does(name, v, args, after, logged) && NulFree(key) && Look(db, key) == v
    ensures Handle([name, key] + args, db) == Handled(Put(db, key, after), logged)
  {
  }

  predicate IsText(s: Bytes) { forall v :: INT64_MIN <= v <= INT64_MAX ==> s != Dec(v) }

  /** `set` stores the digits of a 64-bit number as that number, and anything else as a string. */
  lemma SetIs(v: Option<Value>, s: Bytes)
    ensures forall n :: INT64_MIN <= n <= INT64_MAX && s == Dec(n) ==> Does(SET, v, [s], Some(Int(n)), true)
    ensures IsText(s) ==> Does(SET, v, [s], Some(Str(s)), true)
  {
    hide Does, Word, SetTo, Dec;
    Names();
    SetToIs(s);
    DoesAct(SetOp, v, [s]);
  }

  lemma DelIs(db: Db, keys: seq<Bytes>)
    requires keys != []
    ensures Handle([DEL] + keys, db) == Handled(db - set i | 0 <= i < |keys| :: CStr(keys[i]), true)
  {
    hide Word, OpCode, DeleteAll, CStr;
    Names();
    var argv := [DEL] + keys;
    assert argv == Cmd(DelOp, keys[0], keys[1..]);
    OpCodeOfCmd(DelOp, keys[0], keys[1..]);
    assert argv[1..] == keys;
    DeleteAllIs(db, keys);
  }

  /** Counting from nothing is counting from 0; what leaves 64 bits changes nothing. */
  lemma IncrByIs(n: Int64, amount: Int64)
    requires amount >= 0
    ensures Does(INCRBY, None, [Dec(amount)], Some(Int(amount)), true)
    ensures Does(DECRBY, None, [Dec(amount)], Some(Int(-amount)), true)
    ensures n + amount <= INT64_MAX ==> Does(INCRBY, Some(Int(n)), [Dec(amount)], Some(Int(n + amount)), true)
    ensures n + amount > INT64_MAX ==> Does(INCRBY, Some(Int(n)), [Dec(amount)], Some(Int(n)), false)
    ensures n - amount >= INT64_MIN ==> Does(DECRBY, Some(Int(n)), [Dec(amount)], Some(Int(n - amount)), true)
    ensures n - amount < INT64_MIN ==> Does(DECRBY, Some(Int(n)), [Dec(amount)], Some(Int(n)), false)
  {
    hide Does, Word, Dec, Canonical;
    Names();
    CanonicalIff(Dec(amount), INT64_MIN, INT64_MAX, amount);
    DoesAct(IncrByOp, None, [Dec(amount)]);
    DoesAct(DecrByOp, None, [Dec(amount)]);
    DoesAct(IncrByOp, Some(Int(n)), [Dec(amount)]);
    DoesAct(DecrByOp, Some(Int(n)), [Dec(amount)]);
  }

  /** A negative amount, or a text that is no 64-bit number, is refused. */
  lemma BadAmount(v: Option<Value>, s: Bytes)
    requires IsText(s) || exists n :: INT64_MIN <= n < 0 && s == Dec(n)
    ensures Does(INCRBY, v, [s], v, false) && Does(DECRBY, v, [s], v, false)
  {
    hide Does, Word, Dec, Canonical;
    Names();
    DoesAct(IncrByOp, v, [s]);
    DoesAct(DecrByOp, v, [s]);
    if IsText(s) {
      CanonicalNone(s, INT64_MIN, INT64_MAX);
    } else {
      var n :| INT64_MIN <= n < 0 && s == Dec(n);
      CanonicalIff(s, INT64_MIN, INT64_MAX, n);
    }
  }

  lemma IncrIs(n: Int64)
    ensures Does(INCR, None, [], Some(Int(1)), true) && Does(DECR, None, [], Some(Int(-1)), true)
    ensures n < INT64_MAX ==> Does(INCR, Some(Int(n)), [], Some(Int(n + 1)), true)
    ensures n == INT64_MAX ==> Does(INCR, Some(Int(n)), [], Some(Int(n)), false)
    ensures n > INT64_MIN ==> Does(DECR, Some(Int(n)), [], Some(Int(n - 1)), true)
    ensures n == INT64_MIN ==> Does(DECR, Some(Int(n)), [], Some(Int(n)), false)
  {
    hide Does, Word;
    Names();
    DoesAct(IncrOp, None, []);
    DoesAct(DecrOp, None, []);
    DoesAct(IncrOp, Some(Int(n)), []);
    DoesAct(DecrOp, Some(Int(n)), []);
  }

  lemma AppendIs(n: Int64, t: Bytes, s: Bytes)
    ensures Does(APPEND, None, [s], Some(Str(s)), true)
    ensures Does(APPEND, Some(Str(t)), [s], Some(Str(t + s)), true)
    ensures Does(APPEND, Some(Int(n)), [s], Some(Str(Dec(n) + s)), true)
  {
    hide Does, Word, Dec;
    Names();
    DoesAct(AppendOp, None, [s]);
    DoesAct(AppendOp, Some(Str(t)), [s]);
    DoesAct(AppendOp, Some(Int(n)), [s]);
  }

  function Reversed(s: seq<Bytes>): (r: seq<Bytes>)
    ensures |r| == |s| && forall i :: 0 <= i < |s| ==> r[i] == s[|s| - 1 - i]
  {
    if s == [] then [] else [s[|s| - 1]] + Reversed(s[..|s| - 1])
  }

  lemma {:induction false} PushLeftIs(items: seq<Bytes>, vals: seq<Bytes>)
    ensures PushAll(items, vals, true) == Reversed(vals) + items
  {
    if vals != [] { PushLeftIs(items, vals[..|vals| - 1]); }
  }

  lemma PushIs(items: seq<Bytes>, vals: seq<Bytes>)
    requires vals != []
    ensures Does(LPUSH, None, vals, Some(List(Reversed(vals))), true)
    ensures Does(LPUSH, Some(List(items)), vals, Some(List(Reversed(vals) + items)), true)
    ensures Does(RPUSH, None, vals, Some(List(vals)), true)
    ensures Does(RPUSH, Some(List(items)), vals, Some(List(items + vals)), true)
  {
    hide Does, Word, PushAll, Reversed;
    Names();
    PushLeftIs(items, vals);
    PushLeftIs([], vals);
    PushRight(items, vals);
    PushRight([], vals);
    assert [] + vals == vals && Reversed(vals) + [] == Reversed(vals);
    DoesAct(LPushOp, None, vals);
    DoesAct(LPushOp, Some(List(items)), vals);
    DoesAct(RPushOp, None, vals);
    DoesAct(RPushOp, Some(List(items)), vals);
  }

  /** A pop that hands out an empty string takes it but is not logged. */
  lemma PopIs(items: seq<Bytes>)
    ensures Does(LPOP, None, [], None, false) && Does(RPOP, None, [], None, false)
    ensures items == [] ==> Does(LPOP, Some(List([])), [], Some(List([])), false)
    ensures items == [] ==> Does(RPOP, Some(List([])), [], Some(List([])), false)
    ensures items != [] ==> Does(LPOP, Some(List(items)), [], Some(List(items[1..])), items[0] != [])
    ensures items != [] ==>
      Does(RPOP, Some(List(items)), [], Some(List(items[..|items| - 1])), items[|items| - 1] != [])
  {
    hide Does, Word;
    Names();
    DoesAct(LPopOp, None, []);
    DoesAct(RPopOp, None, []);
    DoesAct(LPopOp, Some(List(items)), []);
    DoesAct(RPopOp, Some(List(items)), []);
  }

  /** An index counts from the front, or from the end if it is negative; outside the list nothing happens. */
  lemma LSetIs(items: seq<Bytes>, index: int, s: Bytes)
    requires INT32_MIN <= index <= INT32_MAX
    ensures Does(LSETINDEX, None, [Dec(index), s], None, false)
    ensures 0 <= index < |items| ==>
      Does(LSETINDEX, Some(List(items)), [Dec(index), s], Some(List(items[..index] + [s] + items[index + 1..])), true)
    ensures -|items| <= index < 0 ==> var i := index + |items|;
      Does(LSETINDEX, Some(List(items)), [Dec(index), s], Some(List(items[..i] + [s] + items[i + 1..])), true)
    ensures index >= |items| || index < -|items| ==>
      Does(LSETINDEX, Some(List(items)), [Dec(index), s], Some(List(items)), false)
  {
    hide Does, Word, Dec, Canonical;
    Names();
    CanonicalIff(Dec(index), INT32_MIN, INT32_MAX, index);
    SetAtIs(items, index, s);
    SetAtIs(items, index + |items|, s);
    DoesAct(LSetOp, None, [Dec(index), s]);
    DoesAct(LSetOp, Some(List(items)), [Dec(index), s]);
  }

  /** An index that is not the digits of a 32-bit number is refused. */
  lemma BadIndex(v: Option<Value>, index: Bytes, s: Bytes)
    requires forall n :: INT32_MIN <= n <= INT32_MAX ==> index != Dec(n)
    ensures Does(LSETINDEX, v, [index, s], v, false)
  {
    hide Does, Word, Dec, Canonical;
    Names();
    CanonicalNone(index, INT32_MIN, INT32_MAX);
    DoesAct(LSetOp, v, [index, s]);
  }

  /** What the fields are is said by `UpdateAllLast` and `UpdateAllOther`. */
  lemma HSetIs(m: map<Bytes, Bytes>, args: seq<Bytes>)
    requires |args| >= 2 && |args| % 2 == 0
    ensures Does(HSET, None, args, Some(Dict(UpdateAll(map[], args))), true)
    ensures Does(HSET, Some(Dict(m)), args, Some(Dict(UpdateAll(m, args))), true)
  {
    hide Does, Word, UpdateAll;
    Names();
    DoesAct(HSetOp, None, args);
    DoesAct(HSetOp, Some(Dict(m)), args);
  }

  /** The fields but those named. */
  function Others(m: map<Bytes, Bytes>, fields: seq<Bytes>): map<Bytes, Bytes> {
    map f | f in m && f !in fields :: m[f]
  }

  function Elements(members: seq<Bytes>): set<Bytes> { set x | x in members }

  lemma RangeIs(s: seq<Bytes>, m: map<Bytes, Bytes>)
    ensures Range(s) == Elements(s) && m - Range(s) == Others(m, s)
  {
    forall x ensures x in Range(s) <==> x in s {
      if x in s {
        var i :| 0 <= i < |s| && s[i] == x;
        assert s[i] in Range(s);
      }
    }
  }

  /** Removing is logged on a missing key too. */
  lemma HDelIs(m: map<Bytes, Bytes>, fields: seq<Bytes>)
    requires fields != []
    ensures Does(HDEL, None, fields, None, true)
    ensures Does(HDEL, Some(Dict(m)), fields, Some(Dict(Others(m, fields))), true)
  {
    hide Does, Word, Range, Others;
    Names();
    RangeIs(fields, m);
    DoesAct(HDelOp, None, fields);
    DoesAct(HDelOp, Some(Dict(m)), fields);
  }

  lemma SAddIs(x: set<Bytes>, members: seq<Bytes>)
    requires members != []
    ensures Does(SADD, None, members, Some(Set(Elements(members))), true)
    ensures Does(SADD, Some(Set(x)), members, Some(Set(x + Elements(members))), true)
    ensures Does(SREM, None, members, None, true)
    ensures Does(SREM, Some(Set(x)), members, Some(Set(x - Elements(members))), true)
  {
    hide Does, Word, Range, Elements;
    Names();
    RangeIs(members, map[]);
    DoesAct(SAddOp, None, members);
    DoesAct(SAddOp, Some(Set(x)), members);
    DoesAct(SRemOp, None, members);
    DoesAct(SRemOp, Some(Set(x)), members);
  }

  /** The kind of value a command works on, if it minds. */
  predicate Fitting(op: Op, v: Value) {
    match op
    case SetOp | DelOp => true
    case IncrOp | DecrOp | IncrByOp | DecrByOp => v.Int?
    case AppendOp => v.Int? || v.Str?
    case LPushOp | RPushOp | LPopOp | RPopOp | LSetOp => v.List?
    case HSetOp | HDelOp => v.Dict?
    case SAddOp | SRemOp => v.Set?
  }

  /** On a value of another kind a command does nothing and is not logged. */
  lemma WrongKind(op: Op, v: Value, args: seq<Bytes>)
    requires Syntax(op, |args| + 2) && !Fitting(op, v)
    ensures Does(Word(op), Some(v), args, Some(v), false)
  {
    hide Does, Word, Canonical;
    DoesAct(op, Some(v), args);
  }

  /** Behind any run: what `set` stores as a number can be counted up. */
  lemma SetThenIncr(cmds: seq<Argv>, key: Bytes, v: Int64, amount: Int64)
    requires NulFree(key) && amount >= 0
    ensures var was := Run(cmds).db;
      && Run(cmds + [[SET, key, Dec(v)]]).db == was[key := Int(v)]
      && Run(cmds + [[SET, key, Dec(v)]] + [[INCRBY, key, Dec(amount)]]).db ==
           was[key := Int(if v + amount <= INT64_MAX then v + amount else v)]
  {
    hide Handle, Run, Dec, Does;
    var set', incr := [SET, key, Dec(v)], [INCRBY, key, Dec(amount)];
    var db := Run(cmds).db;
    SetIs(Look(db, key), Dec(v));
    IncrByIs(v, amount);
    RunSnoc(cmds, set');
    RunSnoc(cmds + [set'], incr);
    assert [SET, key] + [Dec(v)] == set' && [INCRBY, key] + [Dec(amount)] == incr;
    DoesIt(SET, Look(db, key), [Dec(v)], Some(Int(v)), true, db, key);
    var sum := if v + amount <= INT64_MAX then v + amount else v;
    DoesIt(INCRBY, Some(Int(v)), [Dec(amount)], Some(Int(sum)), v + amount <= INT64_MAX, db[key := Int(v)], key);
  }

  /** Behind any run: a text that is no number is stored as it is. */
  lemma SetText(cmds: seq<Argv>, key: Bytes, s: Bytes)
    requires NulFree(key) && IsText(s)
    ensures Run(cmds + [[SET, key, s]]).db == Run(cmds).db[key := Str(s)]
  {
    hide Handle, Run, Dec, Does, IsText;
    var db := Run(cmds).db;
    SetIs(Look(db, key), s);
    RunSnoc(cmds, [SET, key, s]);
    assert [SET, key] + [s] == [SET, key, s];
    DoesIt(SET, Look(db, key), [s], Some(Str(s)), true, db, key);
  }
}
