/** The store, and what each operation of the container does to the value of one key. */
module Store {
  import opened Wrappers
  import opened ByteStrings
  import opened Decimal

  type Int64 = x: int | INT64_MIN <= x <= INT64_MAX witness 0

  datatype Value =
    | Int(n: Int64)
    | Str(s: Bytes)
    | List(items: seq<Bytes>)
    | Dict(fields: map<Bytes, Bytes>)
    | Set(members: set<Bytes>)

  type Db = map<Bytes, Value>

  datatype Code = Ok | Fail | KeyNotFound | WrongType | OutOfRange | Overflow

  /** The value left behind, the error code, and for pops the element handed out. */
  datatype Effect = Effect(after: Option<Value>, code: Code, popped: Bytes)

  function Done(v: Value): Effect { Effect(Some(v), Ok, []) }

  function Refused(v: Option<Value>, code: Code): Effect { Effect(v, code, []) }

  function Look(db: Db, key: Bytes): Option<Value> {
    if key in db then Some(db[key]) else None
  }

  function Put(db: Db, key: Bytes, v: Option<Value>): Db {
    if v.Some? then db[key := v.value] else db - {key}
  }

  lemma PutSame(db: Db, key: Bytes)
    ensures Put(db, key, Look(db, key)) == db
  {
  }

  /** The keys that a list of names stands for, as the key constructor cuts them. */
  function Named(keys: seq<Bytes>): set<Bytes> { set i | 0 <= i < |keys| :: CStr(keys[i]) }

  lemma NamedSnoc(init: seq<Bytes>, last: Bytes)
    ensures Named(init + [last]) == Named(init) + {CStr(last)}
  {
    hide CStr;
    var keys := init + [last];
    forall k | k in Named(init) ensures k in Named(keys) {
      var i :| 0 <= i < |init| && CStr(init[i]) == k;
      assert keys[i] == init[i];
    }
    assert keys[|init|] == last;
  }

  // ----- Strings and integers -----

  function SetTo(s: Bytes): Value {
    var n := Canonical(s, INT64_MIN, INT64_MAX);
    if n.Some? then Int(n.value) else Str(s)
  }

  function IncrBy(v: Option<Value>, amount: int): Effect
    requires 0 <= amount <= INT64_MAX
  {
    match v
    case None => Done(Int(amount))
    case Some(Int(n)) => if n > INT64_MAX - amount then Refused(v, Overflow) else Done(Int(n + amount))
    case Some(_) => Refused(v, WrongType)
  }

  function DecrBy(v: Option<Value>, amount: int): Effect
    requires 0 <= amount <= INT64_MAX
  {
    match v
    case None => Done(Int(-amount))
    case Some(Int(n)) => if n < INT64_MIN + amount then Refused(v, Overflow) else Done(Int(n - amount))
    case Some(_) => Refused(v, WrongType)
  }

  function AppendTo(v: Option<Value>, s: Bytes): Effect {
    match v
    case None => Done(Str(s))
    case Some(Str(t)) => Done(Str(t + s))
    case Some(Int(n)) => Done(Str(Dec(n) + s))
    case Some(_) => Refused(v, WrongType)
  }

  // ----- Lists -----

  function PushAll(items: seq<Bytes>, vals: seq<Bytes>, left: bool): seq<Bytes> {
    if vals == [] then items
    else
      var before := PushAll(items, vals[..|vals| - 1], left);
      var last := vals[|vals| - 1];
      if left then [last] + before else before + [last]
  }

  function Push(v: Option<Value>, vals: seq<Bytes>, left: bool): Effect {
    match v
    case None => Done(List(PushAll([], vals, left)))
    case Some(List(items)) => Done(List(PushAll(items, vals, left)))
    case Some(_) => Refused(v, WrongType)
  }

  function Pop(v: Option<Value>, left: bool): Effect {
    match v
    case None => Refused(v, KeyNotFound)
    case Some(List(items)) =>
      if items == [] then Effect(v, Ok, [])
      else if left then Effect(Some(List(items[1..])), Ok, items[0])
      else Effect(Some(List(items[..|items| - 1])), Ok, items[|items| - 1])
    case Some(_) => Refused(v, WrongType)
  }

  /** A negative index counts from the end. */
  function SetAt(v: Option<Value>, index: int, s: Bytes): Effect {
    match v
    case None => Refused(v, KeyNotFound)
    case Some(List(items)) =>
      var i := if index < 0 then index + |items| else index;
      if i < 0 then Refused(v, Fail)
      else if i >= |items| then Refused(v, OutOfRange)
      else Done(List(items[i := s]))
    case Some(_) => Refused(v, WrongType)
  }

  // ----- Hashes and sets -----

  /** `args` alternates fields and values. */
  function UpdateAll(fields: map<Bytes, Bytes>, args: seq<Bytes>): map<Bytes, Bytes> {
    if |args| < 2 then fields
    else UpdateAll(fields, args[..|args| - 2])[args[|args| - 2] := args[|args| - 1]]
  }

  /** Fields and values in turn. */
  function Zip(fields: seq<Bytes>, values: seq<Bytes>): (r: seq<Bytes>)
    requires |fields| == |values|
    ensures |r| == 2 * |fields|
  {
    if fields == [] then []
    else Zip(fields[..|fields| - 1], values[..|fields| - 1]) + [fields[|fields| - 1], values[|fields| - 1]]
  }

  lemma ZipSnoc(fields: seq<Bytes>, values: seq<Bytes>, f: Bytes, v: Bytes)
    requires |fields| == |values|
    ensures Zip(fields + [f], values + [v]) == Zip(fields, values) + [f, v]
  {
    assert (fields + [f])[..|fields|] == fields && (values + [v])[..|fields|] == values;
  }

  lemma UpdateAllSnoc(m: map<Bytes, Bytes>, args: seq<Bytes>, f: Bytes, v: Bytes)
    ensures UpdateAll(m, args + [f, v]) == UpdateAll(m, args)[f := v]
  {
    assert (args + [f, v])[..|args|] == args;
  }

  lemma PushAllSnoc(items: seq<Bytes>, vals: seq<Bytes>, x: Bytes, left: bool)
    ensures PushAll(items, vals + [x], left) ==
            if left then [x] + PushAll(items, vals, left) else PushAll(items, vals, left) + [x]
  {
    assert (vals + [x])[..|vals|] == vals;
  }

  function HashUpdate(v: Option<Value>, args: seq<Bytes>): Effect {
    match v
    case None => Done(Dict(UpdateAll(map[], args)))
    case Some(Dict(fields)) => Done(Dict(UpdateAll(fields, args)))
    case Some(_) => Refused(v, WrongType)
  }

  function Range(args: seq<Bytes>): set<Bytes> { set i | 0 <= i < |args| :: args[i] }

  function HashDel(v: Option<Value>, fields: seq<Bytes>): Effect {
    match v
    case None => Refused(v, KeyNotFound)
    case Some(Dict(m)) => Done(Dict(m - Range(fields)))
    case Some(_) => Refused(v, WrongType)
  }

  function SetAdd(v: Option<Value>, members: seq<Bytes>): Effect {
    match v
    case None => Done(Set(Range(members)))
    case Some(Set(s)) => Done(Set(s + Range(members)))
    case Some(_) => Refused(v, WrongType)
  }

  function SetRemove(v: Option<Value>, members: seq<Bytes>): Effect {
    match v
    case None => Refused(v, KeyNotFound)
    case Some(Set(s)) => Done(Set(s - Range(members)))
    case Some(_) => Refused(v, WrongType)
  }

  lemma {:induction false} PushRight(items: seq<Bytes>, vals: seq<Bytes>)
    ensures PushAll(items, vals, false) == items + vals
  {
    if vals != [] {
      PushRight(items, vals[..|vals| - 1]);
      assert vals == vals[..|vals| - 1] + [vals[|vals| - 1]];
    }
  }

  /** Pushing on the left one by one leaves the pushed elements in reverse. */
  lemma {:induction false} PushLeftAt(items: seq<Bytes>, vals: seq<Bytes>, i: nat)
    requires i < |items| + |vals|
    ensures |PushAll(items, vals, true)| == |items| + |vals|
    ensures PushAll(items, vals, true)[i] == if i < |vals| then vals[|vals| - 1 - i] else items[i - |vals|]
  {
    if vals != [] {
      var init := vals[..|vals| - 1];
      assert PushAll(items, vals, true) == [vals[|vals| - 1]] + PushAll(items, init, true);
      hide PushAll;
      if i > 0 { PushLeftAt(items, init, i - 1); } else if |items| + |init| > 0 { PushLeftAt(items, init, 0); }
    }
  }

  /** Popping what was pushed on the same end gives it back and restores the list. */
  lemma PopUndoesPush(items: seq<Bytes>, x: Bytes, left: bool)
    ensures Pop(Push(Some(List(items)), [x], left).after, left) == Effect(Some(List(items)), Ok, x)
  {
    assert [x][..0] == [];
    assert PushAll(items, [x], left) == if left then [x] + items else items + [x];
  }

  // ----- Laws of the other operations -----

  /** The digits of a 64-bit number, with its sign, are stored as the number; anything else as it is. */
  lemma SetToIs(s: Bytes)
    ensures forall v :: INT64_MIN <= v <= INT64_MAX && s == Dec(v) ==> SetTo(s) == Int(v)
    ensures (forall v :: INT64_MIN <= v <= INT64_MAX ==> s != Dec(v)) ==> SetTo(s) == Str(s)
  {
    hide Canonical, Dec;
    forall v | INT64_MIN <= v <= INT64_MAX && s == Dec(v) ensures SetTo(s) == Int(v) {
      CanonicalIff(s, INT64_MIN, INT64_MAX, v);
    }
    CanonicalNone(s, INT64_MIN, INT64_MAX);
  }

  /** An increment overflows exactly when the sum leaves 64 bits, and a decrement takes it back. */
  lemma DecrUndoesIncr(n: Int64, amount: int)
    requires 0 <= amount <= INT64_MAX
    ensures IncrBy(Some(Int(n)), amount).code == Overflow <==> n + amount > INT64_MAX
    ensures DecrBy(Some(Int(n)), amount).code == Overflow <==> n - amount < INT64_MIN
    ensures n + amount <= INT64_MAX ==> DecrBy(IncrBy(Some(Int(n)), amount).after, amount) == Done(Int(n))
    ensures n - amount >= INT64_MIN ==> IncrBy(DecrBy(Some(Int(n)), amount).after, amount) == Done(Int(n))
  {
  }

  /** Appending twice is appending both; the digits of an integer count as its text. */
  lemma AppendTwice(v: Option<Value>, s: Bytes, t: Bytes)
    requires AppendTo(v, s).code == Ok
    ensures AppendTo(AppendTo(v, s).after, t) == AppendTo(v, s + t)
    ensures v.Some? && v.value.Int? ==> AppendTo(v, s) == AppendTo(Some(Str(Dec(v.value.n))), s)
  {
    hide Dec;
    if v.Some? && v.value.Str? { assert v.value.s + s + t == v.value.s + (s + t); }
    if v.Some? && v.value.Int? { assert Dec(v.value.n) + s + t == Dec(v.value.n) + (s + t); }
  }

  /** An index addresses one element, from either end; the others stay. */
  lemma SetAtIs(items: seq<Bytes>, index: int, s: Bytes)
    ensures SetAt(Some(List(items)), index, s).code == Ok <==> -|items| <= index < |items|
    ensures 0 <= index < |items| ==>
              SetAt(Some(List(items)), index, s) == Done(List(items[..index] + [s] + items[index + 1..])) &&
              SetAt(Some(List(items)), index - |items|, s) == SetAt(Some(List(items)), index, s)
  {
    if 0 <= index < |items| { assert items[index := s] == items[..index] + [s] + items[index + 1..]; }
  }

  /** The last value given for a field is the one it gets. */
  lemma {:induction false} UpdateAllLast(m: map<Bytes, Bytes>, args: seq<Bytes>, i: nat)
    requires |args| % 2 == 0 && 2 * i < |args| && forall j :: i < j < |args| / 2 ==> args[2 * j] != args[2 * i]
    ensures args[2 * i] in UpdateAll(m, args) && UpdateAll(m, args)[args[2 * i]] == args[2 * i + 1]
  {
    if 2 * i < |args| - 2 {
      var init := args[..|args| - 2];
      assert args[2 * (|args| / 2 - 1)] == args[|args| - 2];
      assert init[2 * i] == args[2 * i] && init[2 * i + 1] == args[2 * i + 1];
      forall j | i < j < |init| / 2 ensures init[2 * j] != init[2 * i] { assert init[2 * j] == args[2 * j]; }
      UpdateAllLast(m, init, i);
    }
  }

  /** A field that is not named keeps what it had. */
  lemma {:induction false} UpdateAllOther(m: map<Bytes, Bytes>, args: seq<Bytes>, f: Bytes)
    requires |args| % 2 == 0 && forall j :: 0 <= j < |args| / 2 ==> args[2 * j] != f
    ensures f in UpdateAll(m, args) <==> f in m
    ensures f in m ==> UpdateAll(m, args)[f] == m[f]
  {
    if |args| >= 2 {
      var init := args[..|args| - 2];
      assert args[2 * (|args| / 2 - 1)] == args[|args| - 2];
      forall j | 0 <= j < |init| / 2 ensures init[2 * j] != f { assert init[2 * j] == args[2 * j]; }
      UpdateAllOther(m, init, f);
    }
  }

  /** Removing what was added to a set leaves what was there apart from it. */
  lemma RemoveUndoesAdd(x: set<Bytes>, members: seq<Bytes>)
    ensures SetRemove(SetAdd(Some(Set(x)), members).after, members) == Done(Set(x - Range(members)))
    ensures x !! Range(members) ==> SetRemove(SetAdd(Some(Set(x)), members).after, members) == Done(Set(x))
  {
    assert x + Range(members) - Range(members) == x - Range(members);
    if x !! Range(members) { assert x - Range(members) == x; }
  }

  /** Deleting a field that was just set to a fresh field restores the hash. */
  lemma HashDelUndoesUpdate(m: map<Bytes, Bytes>, f: Bytes, x: Bytes)
    requires f !in m
    ensures HashDel(HashUpdate(Some(Dict(m)), [f, x]).after, [f]) == Done(Dict(m))
  {
    UpdateAllSnoc(m, [], f, x);
    assert [] + [f, x] == [f, x];
    assert [f][0] in Range([f]);
    assert Range([f]) == {f};
    hide UpdateAll, Range;
    assert m[f := x] - {f} == m;
  }
}
