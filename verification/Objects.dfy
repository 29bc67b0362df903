/** The container's operations on collections, carried out on the data structures that hold them:
    `DList`, `HashDict` and `HashSet` do to their contents what the store's operations say. */
module Objects {
  import opened Wrappers
  import opened ByteStrings
  import opened Store
  import opened HashStructs
  import opened Rehashables
  import Container
  import DLists

  // ----- Lists -----

  function PushOp(x: Bytes, left: bool): DLists.Op { if left then DLists.PushLeftOp(x) else DLists.PushRightOp(x) }

  function PushOps(vals: seq<Bytes>, left: bool): (ops: seq<DLists.Op>)
    ensures |ops| == |vals|
  {
    if vals == [] then [] else PushOps(vals[..|vals| - 1], left) + [PushOp(vals[|vals| - 1], left)]
  }

  lemma {:induction false} PushOpsPush(vals: seq<Bytes>, left: bool, was: seq<Bytes>)
    ensures DLists.SeqRun(PushOps(vals, left), was).0 == PushAll(was, vals, left)
  {
    if vals != [] {
      var init, ops := vals[..|vals| - 1], PushOps(vals, left);
      PushOpsPush(init, left, was);
      assert ops[..|ops| - 1] == PushOps(init, left);
    }
  }

  method PushObject(list: DLists.DList, vals: seq<Bytes>, left: bool)
    requires list.Valid()
    modifies list, list.chain, set n | n in list.chain :: n.data
    ensures list.Valid() && Push(Some(List(old(list.Contents))), vals, left) == Done(List(list.Contents))
  {
    hide PushAll;
    PushOpsPush(vals, left, list.Contents);
    var popped := DLists.RunOn(list, PushOps(vals, left));
  }

  method PopObject(list: DLists.DList, left: bool) returns (popped: Bytes)
    requires list.Valid()
    modifies list, list.chain
    ensures list.Valid() && Pop(Some(List(old(list.Contents))), left) == Effect(Some(List(list.Contents)), Ok, popped)
  {
    if left { popped := list.PopLeft(); } else { popped := list.PopRight(); }
  }

  /** `ListSetItemAtIndex`: an index past the end is the exception of `operator[]`. */
  method SetObject(list: DLists.DList, index: int, s: Bytes) returns (code: Code)
    requires list.Valid()
    modifies list, set n | n in list.chain :: n.data
    ensures list.Valid() && SetAt(Some(List(old(list.Contents))), index, s) == Effect(Some(List(list.Contents)), code, [])
  {
    var i := if index < 0 then index + list.len else index;
    if i < 0 { return Fail; }
    var found := list.Set(i, s);
    code := if found then Ok else OutOfRange;
  }

  // ----- Hashes and sets -----

  function UpdateOps(fields: seq<Bytes>, values: seq<Bytes>): (ops: seq<Op<Bytes>>)
    requires |fields| == |values|
    ensures |ops| == |fields|
  {
    if fields == [] then []
    else UpdateOps(fields[..|fields| - 1], values[..|fields| - 1]) + [UpdateOp(fields[|fields| - 1], values[|fields| - 1])]
  }

  lemma {:induction false} UpdateOpsUpdate(fields: seq<Bytes>, values: seq<Bytes>, was: map<Bytes, Bytes>)
    requires |fields| == |values|
    ensures MapRun(UpdateOps(fields, values), was).0 == UpdateAll(was, Zip(fields, values))
  {
    if fields != [] {
      var f, v, ops := fields[..|fields| - 1], values[..|fields| - 1], UpdateOps(fields, values);
      UpdateOpsUpdate(f, v, was);
      assert ops[..|ops| - 1] == UpdateOps(f, v);
      UpdateAllSnoc(was, Zip(f, v), fields[|fields| - 1], values[|fields| - 1]);
      hide UpdateAll;
    }
  }

  method UpdateObject(dict: Rehashable<Bytes>, fields: seq<Bytes>, values: seq<Bytes>)
    requires dict.Valid() && |fields| == |values|
    modifies dict.Repr
    ensures dict.Valid() && HashUpdate(Some(Dict(old(dict.Contents()))), Zip(fields, values)) == Done(Dict(dict.Contents()))
  {
    hide UpdateAll, Zip, MapRun;
    UpdateOpsUpdate(fields, values, dict.Contents());
    var answers := RunOn(dict, UpdateOps(fields, values));
  }

  function EraseOps<V>(keys: seq<Bytes>): (ops: seq<Op<V>>)
    ensures |ops| == |keys|
  {
    if keys == [] then [] else EraseOps<V>(keys[..|keys| - 1]) + [EraseOp(keys[|keys| - 1])]
  }

  /** The answers that say a key was found. */
  function Hits<V>(answers: seq<Answer<V>>): nat {
    if answers == [] then 0
    else
      var last := answers[|answers| - 1];
      Hits(answers[..|answers| - 1]) + if last.Found? && last.yes then 1 else 0
  }

  lemma MapRunSnoc<V>(ops: seq<Op<V>>, op: Op<V>, start: map<Bytes, V>)
    ensures var (m, answers) := MapRun(ops, start); var (m', a) := MapStep(m, op);
      MapRun(ops + [op], start) == (m', answers + [a])
  {
    hide MapStep;
    assert (ops + [op])[..|ops|] == ops;
  }

  lemma HitsSnoc<V>(answers: seq<Answer<V>>, a: Answer<V>)
    ensures Hits(answers + [a]) == Hits(answers) + if a.Found? && a.yes then 1 else 0
    ensures News(answers + [a]) == News(answers) + if a.Put? && a.status == NewAdded then 1 else 0
  {
    assert (answers + [a])[..|answers|] == answers;
  }

  lemma NoOps<V>(was: map<Bytes, V>)
    ensures MapRun([], was) == (was, []) && Hits<V>([]) == 0 && News<V>([]) == 0
  {
  }

  ghost predicate Erased<V>(was: map<Bytes, V>, keys: seq<Bytes>, m: map<Bytes, V>, count: nat) {
    m == was - Range(keys) && count == |was| - |m|
  }

  lemma {:induction false} EraseOpsErase<V>(keys: seq<Bytes>, was: map<Bytes, V>)
    ensures var (m, answers) := MapRun(EraseOps<V>(keys), was); Erased(was, keys, m, Hits(answers))
  {
    hide MapRun, Hits, Erased;
    if keys == [] {
      NoOps(was);
      NothingErased(was);
    } else {
      var init, last := keys[..|keys| - 1], keys[|keys| - 1];
      EraseOpsErase(init, was);
      var (m, answers) := MapRun(EraseOps<V>(init), was);
      MapRunSnoc(EraseOps<V>(init), EraseOp(last), was);
      ErasedStep(was, init, m, Hits(answers), last);
      HitsSnoc(answers, Found(last in m));
      assert keys == init + [last];
    }
  }

  lemma NothingErased<V>(was: map<Bytes, V>)
    ensures Erased(was, [], was, 0)
  {
  }

  lemma ErasedStep<V>(was: map<Bytes, V>, init: seq<Bytes>, m: map<Bytes, V>, count: nat, last: Bytes)
    requires Erased(was, init, m, count)
    ensures Erased(was, init + [last], m - {last}, count + if last in m then 1 else 0)
  {
    hide Range;
    EraseOne(was, init, last, m);
  }

  lemma EraseOne<V>(was: map<Bytes, V>, init: seq<Bytes>, last: Bytes, m: map<Bytes, V>)
    requires m == was - Range(init)
    ensures was - Range(init + [last]) == m - {last} && |m - {last}| == |m| - if last in m then 1 else 0
  {
    RangeLast(init, last);
    Container.MinusMinus(was, Range(init), last);
    assert (m - {last}).Keys == m.Keys - {last};
  }

  lemma RangeLast(init: seq<Bytes>, last: Bytes)
    ensures Range(init + [last]) == Range(init) + {last}
  {
    var all := init + [last];
    Container.RangeSnoc(all, |init|);
    assert all[..|init|] == init && all[..|all|] == all;
  }

  /** `HashTypeEraseAux` on a hash. */
  method HashDelObject(dict: Rehashable<Bytes>, fields: seq<Bytes>) returns (erased: nat)
    requires dict.Valid()
    modifies dict.Repr
    ensures dict.Valid() && HashDel(Some(Dict(old(dict.Contents()))), fields) == Done(Dict(dict.Contents()))
    ensures erased == |old(dict.Contents())| - |dict.Contents()|
  {
    hide Range, MapRun, Hits;
    EraseOpsErase(fields, dict.Contents());
    var answers := RunOn(dict, EraseOps(fields));
    erased := Hits(answers);
  }

  /** `HashTypeEraseAux` on a set, which keeps no values. */
  method SetRemoveObject(items: Rehashable<()>, members: seq<Bytes>) returns (erased: nat)
    requires items.Valid()
    modifies items.Repr
    ensures items.Valid() && SetRemove(Some(Set(old(items.Contents()).Keys)), members) == Done(Set(items.Contents().Keys))
    ensures erased == |old(items.Contents())| - |items.Contents()|
  {
    hide Range, MapRun, Hits;
    EraseOpsErase(members, items.Contents());
    KeysMinus(items.Contents(), Range(members));
    var answers := RunOn(items, EraseOps(members));
    erased := Hits(answers);
  }

  lemma KeysMinus(m: map<Bytes, ()>, gone: set<Bytes>)
    ensures (m - gone).Keys == m.Keys - gone
  {
  }

  function InsertOps(members: seq<Bytes>): (ops: seq<Op<()>>)
    ensures |ops| == |members|
  {
    if members == [] then [] else InsertOps(members[..|members| - 1]) + [InsertOp(members[|members| - 1], ())]
  }

  /** The answers that say an item is new. */
  function News<V>(answers: seq<Answer<V>>): nat {
    if answers == [] then 0
    else
      var last := answers[|answers| - 1];
      News(answers[..|answers| - 1]) + if last.Put? && last.status == NewAdded then 1 else 0
  }

  /** The table holds `m` where it held `was`, and `count` items are new. */
  ghost predicate Added(was: map<Bytes, ()>, members: seq<Bytes>, m: map<Bytes, ()>, count: nat) {
    m.Keys == was.Keys + Range(members) && count == |m| - |was|
  }

  lemma AddedStep(was: map<Bytes, ()>, init: seq<Bytes>, m: map<Bytes, ()>, count: nat, last: Bytes)
    requires Added(was, init, m, count)
    ensures Added(was, init + [last], if last in m then m else m[last := ()], count + if last in m then 0 else 1)
  {
    RangeLast(init, last);
    hide Range;
    AddOne(m, last);
  }

  lemma {:induction false} InsertOpsInsert(members: seq<Bytes>, was: map<Bytes, ()>)
    ensures var (m, answers) := MapRun(InsertOps(members), was); Added(was, members, m, News(answers))
  {
    hide MapRun, News, Added;
    if members == [] {
      NoOps(was);
      NothingAdded(was);
    } else {
      var init, last := members[..|members| - 1], members[|members| - 1];
      InsertOpsInsert(init, was);
      var (m, answers) := MapRun(InsertOps(init), was);
      MapRunSnoc(InsertOps(init), InsertOp(last, ()), was);
      AddedStep(was, init, m, News(answers), last);
      HitsSnoc(answers, Answer.Put(if last in m then Existed else NewAdded));
      assert members == init + [last];
    }
  }

  lemma NothingAdded(was: map<Bytes, ()>)
    ensures Added(was, [], was, 0)
  {
  }

  lemma AddedIsAdd(was: map<Bytes, ()>, members: seq<Bytes>, m: map<Bytes, ()>, count: nat)
    requires Added(was, members, m, count)
    ensures SetAdd(Some(Set(was.Keys)), members) == Done(Set(m.Keys)) && count == |m| - |was|
  {
    hide Range;
  }

  lemma AddOne(m: map<Bytes, ()>, k: Bytes)
    ensures var m' := if k in m then m else m[k := ()]; m'.Keys == m.Keys + {k} && |m'| == |m| + if k in m then 0 else 1
  {
    if k !in m { assert m[k := ()].Keys == m.Keys + {k}; }
  }

  method SetAddObject(items: Rehashable<()>, members: seq<Bytes>) returns (count: nat)
    requires items.Valid()
    modifies items.Repr
    ensures items.Valid() && SetAdd(Some(Set(old(items.Contents()).Keys)), members) == Done(Set(items.Contents().Keys))
    ensures count == |items.Contents()| - |old(items.Contents())|
  {
    hide Range, MapRun, News, Added, SetAdd;
    InsertOpsInsert(members, items.Contents());
    var answers := RunOn(items, InsertOps(members));
    count := News(answers);
    AddedIsAdd(old(items.Contents()), members, items.Contents(), count);
  }
}
