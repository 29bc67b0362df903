/** `KVContainer`: 512 buckets of objects and the pool of keys that eviction draws from. */
module Container {
  import opened Wrappers
  import opened ByteStrings
  import opened Decimal
  import opened Store

  newtype int64 = x: int | INT64_MIN <= x <= INT64_MAX witness 0

  /** A value and the time of its last visit. */
  datatype Object = Object(value: Value, visited: nat)

  type Objects = map<Bytes, Object>

  function Values(objects: Objects): Db { map k | k in objects :: objects[k].value }

  /** The visit time is set wherever the call finds or makes a value of its type: also when the sum of
      an increment does not fit, not when an index or an argument is refused. */
  predicate Visits(code: Code) { code == Ok || code == Overflow }

  /** The objects after a call with effect `e` on `key` at time `now`. */
  function Touched(objects: Objects, key: Bytes, e: Effect, now: nat): Objects {
    if Visits(e.code) && e.after.Some? then objects[key := Object(e.after.value, now)] else objects
  }

  lemma TouchedValues(objects: Objects, key: Bytes, e: Effect, now: nat)
    requires !Visits(e.code) || e.after.None? ==> e.after == Look(Values(objects), key)
    ensures Values(Touched(objects, key, e, now)) == Put(Values(objects), key, e.after)
  {
    PutSame(Values(objects), key);
  }

  function Bucket(key: Bytes): (i: nat)
    ensures i < 512
  {
    Hash(key) % 512
  }

  ghost predicate Distinct(s: seq<Bytes>) { forall i, j :: 0 <= i < j < |s| ==> s[i] != s[j] }

  /** Each key sits in its own bucket and nowhere else. */
  ghost predicate Filed(buckets: seq<Objects>, objects: Objects) {
    && |buckets| == 512
    && (forall k :: k in objects ==> k in buckets[Bucket(k)] && buckets[Bucket(k)][k] == objects[k])
    && (forall i, k :: 0 <= i < 512 && k in buckets[i] ==> Bucket(k) == i && k in objects)
  }

  /** The pool lists every key once. */
  ghost predicate Pooled(pool: seq<Bytes>, objects: Objects) {
    && Distinct(pool)
    && (forall k :: k in pool <==> k in objects)
  }

  function Without(pool: seq<Bytes>, key: Bytes): (r: seq<Bytes>)
    ensures forall k :: k in r <==> k in pool && k != key
  {
    if pool == [] then []
    else
      var r := Without(pool[..|pool| - 1], key);
      if pool[|pool| - 1] == key then r else r + [pool[|pool| - 1]]
  }

  lemma {:induction false} WithoutDistinct(pool: seq<Bytes>, key: Bytes)
    requires Distinct(pool)
    ensures Distinct(Without(pool, key))
    ensures |Without(pool, key)| == |pool| - if key in pool then 1 else 0
  {
    if pool != [] {
      var init := pool[..|pool| - 1];
      WithoutDistinct(init, key);
      assert forall k :: k in pool <==> k in init || k == pool[|pool| - 1];
      assert pool[|pool| - 1] !in init;
    }
  }

  lemma {:induction false} DistinctSize(pool: seq<Bytes>, keys: set<Bytes>)
    requires Distinct(pool) && forall k :: k in pool <==> k in keys
    ensures |pool| == |keys|
  {
    if pool == [] {
      assert keys == {};
    } else {
      var last := pool[|pool| - 1];
      DistinctSize(pool[..|pool| - 1], keys - {last});
    }
  }

  lemma FileIn(buckets: seq<Objects>, objects: Objects, key: Bytes, o: Object)
    requires Filed(buckets, objects)
    ensures Filed(buckets[Bucket(key) := buckets[Bucket(key)][key := o]], objects[key := o])
  {
  }

  lemma FileOut(buckets: seq<Objects>, objects: Objects, key: Bytes)
    requires Filed(buckets, objects)
    ensures Filed(buckets[Bucket(key) := buckets[Bucket(key)] - {key}], objects - {key})
  {
  }

  lemma ValuesPut(objects: Objects, key: Bytes, o: Object)
    ensures Values(objects[key := o]) == Put(Values(objects), key, Some(o.value))
    ensures Values(objects - {key}) == Put(Values(objects), key, None)
  {
  }

  // ----- The loops over the operands of one command -----

  method Pushed(was: seq<Bytes>, vals: seq<Bytes>, left: bool) returns (items: seq<Bytes>)
    ensures items == PushAll(was, vals, left)
  {
    hide PushAll;
    items := was;
    assert PushAll(was, vals[..0], left) == was by { PushNone(was, left); }
    for i := 0 to |vals|
      invariant items == PushAll(was, vals[..i], left)
    {
      PushAllSnoc(was, vals[..i], vals[i], left);
      assert vals[..i + 1] == vals[..i] + [vals[i]];
      items := if left then [vals[i]] + items else items + [vals[i]];
    }
    assert vals[..|vals|] == vals;
  }

  lemma PushNone(was: seq<Bytes>, left: bool)
    ensures PushAll(was, [], left) == was
  {
  }

  method Updated(was: map<Bytes, Bytes>, fields: seq<Bytes>, values: seq<Bytes>)
    returns (dict: map<Bytes, Bytes>, count: nat)
    requires |fields| == |values|
    ensures dict == UpdateAll(was, Zip(fields, values)) && count == |fields|
  {
    hide UpdateAll, Zip;
    dict, count := was, 0;
    UpdateNone(was, fields, values);
    for i := 0 to |fields|
      invariant dict == UpdateAll(was, Zip(fields[..i], values[..i])) && count == i
    {
      ZipSnoc(fields[..i], values[..i], fields[i], values[i]);
      UpdateAllSnoc(was, Zip(fields[..i], values[..i]), fields[i], values[i]);
      assert fields[..i + 1] == fields[..i] + [fields[i]] && values[..i + 1] == values[..i] + [values[i]];
      dict, count := dict[fields[i] := values[i]], count + 1;
    }
    assert fields[..|fields|] == fields && values[..|values|] == values;
  }

  lemma UpdateNone(was: map<Bytes, Bytes>, fields: seq<Bytes>, values: seq<Bytes>)
    ensures UpdateAll(was, Zip(fields[..0], values[..0])) == was
  {
  }

  method FieldsErased(was: map<Bytes, Bytes>, fields: seq<Bytes>) returns (dict: map<Bytes, Bytes>, erased: nat)
    ensures dict == was - Range(fields) && erased == |was| - |dict|
  {
    hide Range;
    dict, erased := was, 0;
    EraseNone(was, fields);
    for i := 0 to |fields|
      invariant dict == was - Range(fields[..i]) && erased == |was| - |dict|
    {
      EraseStep(was, fields, i);
      if fields[i] in dict { erased := erased + 1; }
      dict := dict - {fields[i]};
    }
    assert fields[..|fields|] == fields;
  }

  lemma EraseNone(was: map<Bytes, Bytes>, fields: seq<Bytes>)
    ensures was - Range(fields[..0]) == was
  {
  }

  method Inserted(was: set<Bytes>, members: seq<Bytes>) returns (all: set<Bytes>, count: nat)
    ensures all == was + Range(members) && count == |all| - |was|
  {
    hide Range;
    all, count := was, 0;
    RangeNone(members);
    for i := 0 to |members|
      invariant all == was + Range(members[..i]) && count == |all| - |was|
    {
      RangeSnoc(members, i);
      var more := all + {members[i]};
      assert |more| == |all| + if members[i] in all then 0 else 1 by {
        if members[i] in all { assert more == all; }
      }
      if members[i] !in all { count := count + 1; }
      all := more;
    }
    assert members[..|members|] == members;
  }

  method MembersErased(was: set<Bytes>, members: seq<Bytes>) returns (left: set<Bytes>, erased: nat)
    ensures left == was - Range(members) && erased == |was| - |left|
  {
    hide Range;
    left, erased := was, 0;
    RangeNone(members);
    for i := 0 to |members|
      invariant left == was - Range(members[..i]) && erased == |was| - |left|
    {
      RangeSnoc(members, i);
      if members[i] in left { erased := erased + 1; }
      left := left - {members[i]};
    }
    assert members[..|members|] == members;
  }

  class KVContainer {
    const buckets: array<Objects>
    var pool: seq<Bytes>
    ghost var objects: Objects

    ghost predicate Valid()
      reads this, buckets
    {
      buckets.Length == 512 && Filed(buckets[..], objects) && Pooled(pool, objects)
    }

    ghost function Contents(): Db
      reads this
    {
      Values(objects)
    }

    /** A call with effect `e` on the value of `key` at time `now` leaves every other object alone, its
        visit time included. */
    twostate predicate Did(key: Bytes, e: Effect, now: nat)
      reads this, buckets
    {
      && Valid() && Contents() == Put(old(Contents()), key, e.after)
      && objects == Touched(old(objects), key, e, now)
    }

    constructor ()
      ensures Valid() && Contents() == map[] && fresh(buckets)
    {
      buckets := new Objects[512](_ => map[]);
      pool := [];
      objects := map[];
    }

    /** The object of a key, as `GetBucket` and `find` reach it. */
    method Fetch(key: Bytes) returns (o: Option<Object>)
      requires Valid()
      ensures o == (if key in objects then Some(objects[key]) else None)
      ensures Look(Contents(), key) == (if o.Some? then Some(o.value.value) else None)
    {
      var content := buckets[Bucket(key)];
      assert content == buckets[..][Bucket(key)];
      o := if key in content then Some(content[key]) else None;
    }

    /** Puts a value under a key; a new key joins the pool. */
    method Store(key: Bytes, value: Value, now: nat)
      requires Valid()
      modifies this, buckets
      ensures Valid() && objects == old(objects)[key := Object(value, now)]
      ensures pool == if key in old(objects) then old(pool) else old(pool) + [key]
      ensures Contents() == Put(old(Contents()), key, Some(value))
    {
      var o := Object(value, now);
      FileIn(buckets[..], objects, key, o);
      ValuesPut(objects, key, o);
      var i := Bucket(key);
      if key !in buckets[i] { pool := pool + [key]; }
      buckets[i] := buckets[i][key := o];
      objects := objects[key := o];
    }

    /** The visit time of a key that is present. */
    method Touch(key: Bytes, now: nat)
      requires Valid() && key in objects
      modifies this, buckets
      ensures Valid() && Contents() == old(Contents()) && pool == old(pool)
      ensures objects == old(objects)[key := Object(old(objects)[key].value, now)]
    {
      hide Filed, Pooled, Values;
      var o := Fetch(key);
      Store(key, o.value.value, now);
      assert Contents() == old(Contents());
    }

    method Delete(key: Bytes) returns (found: bool)
      requires Valid()
      modifies this, buckets
      ensures Valid() && objects == old(objects) - {key}
      ensures found == (key in old(objects)) && |pool| == |old(pool)| - (if found then 1 else 0)
      ensures Contents() == Put(old(Contents()), key, None)
    {
      FileOut(buckets[..], objects, key);
      ValuesPut(objects, key, Object(Int(0), 0));
      WithoutDistinct(pool, key);
      var o := Fetch(key);
      found := o.Some?;
      if !found {
        assert objects == objects - {key};
        return;
      }
      pool := Without(pool, key);
      buckets[Bucket(key)] := buckets[Bucket(key)] - {key};
      objects := objects - {key};
    }

    /** Deletes keys one by one; the count is the number that were there. */
    method DeleteKeys(keys: seq<Bytes>) returns (n: nat)
      requires Valid()
      modifies this, buckets
      ensures Valid() && objects == old(objects) - Named(keys) && n == |old(objects)| - |objects|
    {
      hide Filed, Pooled, Values, CStr, Deleted;
      n := 0;
      NothingDeleted(objects, keys);
      for i := 0 to |keys|
        invariant Valid() && Deleted(old(objects), keys[..i], objects, n)
      {
        DeletedOne(old(objects), keys, i, objects, n);
        var found := Delete(CStr(keys[i]));
        if found { n := n + 1; }
      }
      assert keys[..|keys|] == keys;
      AllDeleted(old(objects), keys, objects, n);
    }

    // ----- Strings and integers -----

    method SetInt(key: Bytes, n: int64, now: nat)
      requires Valid()
      modifies this, buckets
      ensures Did(key, Done(Int(n as int)), now)
    {
      hide Filed, Pooled, Values;
      Store(key, Int(n as int), now);
    }

    method SetString(key: Bytes, s: Bytes, now: nat)
      requires Valid()
      modifies this, buckets
      ensures Did(key, Done(Str(s)), now)
    {
      hide Filed, Pooled, Values;
      Store(key, Str(s), now);
    }

    /** 64-bit arithmetic throughout: no step of it leaves the range. */
    method IncrIntBy(key: Bytes, increment: int64, now: nat) returns (ans: int64, code: Code)
      requires Valid() && increment >= 0
      modifies this, buckets
      ensures var e := IncrBy(Look(old(Contents()), key), increment as int);
              Did(key, e, now) && code == e.code && (code.Ok? ==> e.after == Some(Int(ans as int)))
    {
      hide Filed, Pooled, Values;
      var o := Fetch(key);
      ans := 0;
      if o.None? {
        Store(key, Int(increment as int), now);
        return increment, Ok;
      }
      if !o.value.value.Int? { return 0, WrongType; }
      var val := o.value.value.n as int64;
      if val > 0x7FFF_FFFF_FFFF_FFFF - increment {
        Touch(key, now);
        return 0, Overflow;
      }
      ans := val + increment;
      Store(key, Int(ans as int), now);
      code := Ok;
    }

    method DecrIntBy(key: Bytes, decrement: int64, now: nat) returns (ans: int64, code: Code)
      requires Valid() && decrement >= 0
      modifies this, buckets
      ensures var e := DecrBy(Look(old(Contents()), key), decrement as int);
              Did(key, e, now) && code == e.code && (code.Ok? ==> e.after == Some(Int(ans as int)))
    {
      hide Filed, Pooled, Values;
      var o := Fetch(key);
      ans := 0;
      if o.None? {
        Store(key, Int((-decrement) as int), now);
        return -decrement, Ok;
      }
      if !o.value.value.Int? { return 0, WrongType; }
      var val := o.value.value.n as int64;
      if val < -0x8000_0000_0000_0000 + decrement {
        Touch(key, now);
        return 0, Overflow;
      }
      ans := val - decrement;
      Store(key, Int(ans as int), now);
      code := Ok;
    }

    method Append(key: Bytes, s: Bytes, now: nat) returns (length: nat, code: Code)
      requires Valid()
      modifies this, buckets
      ensures var e := AppendTo(Look(old(Contents()), key), s);
              Did(key, e, now) && code == e.code && (code.Ok? ==> length == |e.after.value.s|)
    {
      hide Filed, Pooled, Values;
      var o := Fetch(key);
      var all := s;
      if o.Some? {
        match o.value.value {
          case Str(t) => all := t + s;
          case Int(n) => all := Dec(n) + s;
          case _ => return 0, WrongType;
        }
      }
      Store(key, Str(all), now);
      return |all|, Ok;
    }

    // ----- Lists -----

    method ListPush(key: Bytes, vals: seq<Bytes>, left: bool, now: nat) returns (length: nat, code: Code)
      requires Valid()
      modifies this, buckets
      ensures var e := Push(Look(old(Contents()), key), vals, left);
              Did(key, e, now) && code == e.code && (code.Ok? ==> length == |e.after.value.items|)
    {
      hide Filed, Pooled, Values;
      var o := Fetch(key);
      if o.Some? && !o.value.value.List? { return 0, WrongType; }
      var was := if o.Some? then o.value.value.items else [];
      var items := Pushed(was, vals, left);
      Store(key, List(items), now);
      return |items|, Ok;
    }

    method ListPop(key: Bytes, left: bool, now: nat) returns (popped: Bytes, code: Code)
      requires Valid()
      modifies this, buckets
      ensures var e := Pop(Look(old(Contents()), key), left);
              Did(key, e, now) && code == e.code && popped == e.popped
    {
      hide Filed, Pooled, Values;
      var o := Fetch(key);
      popped := [];
      if o.None? { return [], KeyNotFound; }
      if !o.value.value.List? { return [], WrongType; }
      var items := o.value.value.items;
      if items != [] {
        popped, items := if left then items[0] else items[|items| - 1], if left then items[1..] else items[..|items| - 1];
      }
      Store(key, List(items), now);
      code := Ok;
    }

    method ListSetItemAtIndex(key: Bytes, index: int, s: Bytes, now: nat) returns (code: Code)
      requires Valid()
      modifies this, buckets
      ensures var e := SetAt(Look(old(Contents()), key), index, s); Did(key, e, now) && code == e.code
    {
      hide Filed, Pooled, Values;
      var o := Fetch(key);
      if o.None? { return KeyNotFound; }
      if !o.value.value.List? { return WrongType; }
      var items := o.value.value.items;
      var i := index;
      if i < 0 { i := i + |items|; }
      if i < 0 { return Fail; }
      if i >= |items| { return OutOfRange; }
      Store(key, List(items[i := s]), now);
      code := Ok;
    }

    // ----- Hashes and sets -----

    method HashUpdateKV(key: Bytes, fields: seq<Bytes>, values: seq<Bytes>, now: nat) returns (count: nat, code: Code)
      requires Valid()
      modifies this, buckets
      ensures |fields| != |values| ==> Valid() && objects == old(objects) && Contents() == old(Contents()) && code == Fail
      ensures |fields| == |values| ==>
                var e := HashUpdate(Look(old(Contents()), key), Zip(fields, values));
                Did(key, e, now) && code == e.code && (code.Ok? ==> count == |fields|)
    {
      hide Filed, Pooled, Values;
      if |fields| != |values| { return 0, Fail; }
      var o := Fetch(key);
      if o.Some? && !o.value.value.Dict? { return 0, WrongType; }
      var was := if o.Some? then o.value.value.fields else map[];
      var dict;
      dict, count := Updated(was, fields, values);
      Store(key, Dict(dict), now);
      code := Ok;
    }

    method HashDelField(key: Bytes, fields: seq<Bytes>, now: nat) returns (erased: nat, code: Code)
      requires Valid()
      modifies this, buckets
      ensures var v := Look(old(Contents()), key); var e := HashDel(v, fields);
              Did(key, e, now) && code == e.code && (code.Ok? ==> erased == |v.value.fields| - |e.after.value.fields|)
    {
      hide Filed, Pooled, Values;
      var o := Fetch(key);
      if o.None? { return 0, KeyNotFound; }
      if !o.value.value.Dict? { return 0, WrongType; }
      var was := o.value.value.fields;
      var dict;
      dict, erased := FieldsErased(was, fields);
      Store(key, Dict(dict), now);
      code := Ok;
    }

    method SetAddItem(key: Bytes, members: seq<Bytes>, now: nat) returns (count: nat, code: Code)
      requires Valid()
      modifies this, buckets
      ensures var v := Look(old(Contents()), key); var e := SetAdd(v, members);
              Did(key, e, now) && code == e.code &&
              (code.Ok? ==> count == |e.after.value.members| - if v.Some? then |v.value.members| else 0)
    {
      hide Filed, Pooled, Values;
      var o := Fetch(key);
      if o.Some? && !o.value.value.Set? { return 0, WrongType; }
      var was := if o.Some? then o.value.value.members else {};
      assert {} + Range(members) == Range(members);
      var set';
      set', count := Inserted(was, members);
      Store(key, Set(set'), now);
      code := Ok;
    }

    method SetRemoveMembers(key: Bytes, members: seq<Bytes>, now: nat) returns (erased: nat, code: Code)
      requires Valid()
      modifies this, buckets
      ensures var v := Look(old(Contents()), key); var e := SetRemove(v, members);
              Did(key, e, now) && code == e.code && (code.Ok? ==> erased == |v.value.members| - |e.after.value.members|)
    {
      hide Filed, Pooled, Values;
      var o := Fetch(key);
      if o.None? { return 0, KeyNotFound; }
      if !o.value.value.Set? { return 0, WrongType; }
      var was := o.value.value.members;
      var set';
      set', erased := MembersErased(was, members);
      Store(key, Set(set'), now);
      code := Ok;
    }

    // ----- Counting and eviction -----

    method NumItems() returns (count: nat)
      requires Valid()
      ensures count == |Contents()| == |pool|
    {
      hide Filed, Pooled, Values, Bucket;
      count := 0;
      NoneBelow(objects);
      for i := 0 to 512
        invariant count == |Below(objects, i)|
      {
        BelowStep(buckets[..], objects, i);
        count := count + |buckets[i]|;
      }
      AllBelow(objects);
      PoolSize(pool, objects);
    }

    /** Random eviction of `num` keys takes exactly `num` keys, or all there are. */
    method KeyEvictionRandom(num: nat) returns (evicted: set<Bytes>)
      requires Valid()
      modifies this, buckets
      ensures Valid() && Contents() == old(Contents()) - evicted
      ensures evicted <= old(Contents()).Keys && |evicted| == if num < |old(Contents())| then num else |old(Contents())|
    {
      hide Filed, Pooled, Values;
      PoolSize(pool, objects);
      var n := if |pool| < num then |pool| else num;
      evicted := {};
      assert objects == old(objects) - evicted;
      for i := 0 to n
        invariant Valid() && |pool| == |old(pool)| - i && |evicted| == i
        invariant objects == old(objects) - evicted && evicted <= old(objects).Keys
      {
        var idx :| 0 <= idx < |pool|;
        var key := pool[idx];
        PoolHas(pool, objects, idx);
        var found := Delete(key);
        MinusMinus(old(objects), evicted, key);
        evicted := evicted + {key};
      }
      ValuesMinus(old(objects), evicted);
    }

    /** Up to ten different keys of the pool. */
    method Candidates() returns (keys: seq<Bytes>)
      requires Valid() && pool != []
      ensures 1 <= |keys| <= 10 && Distinct(keys) && forall k :: k in keys ==> k in objects
    {
      keys := [];
      for i := 0 to 10
        invariant |keys| <= i && (i > 0 ==> keys != []) && Distinct(keys)
        invariant forall k :: k in keys ==> k in objects
      {
        var idx :| 0 <= idx < |pool|;
        if pool[idx] !in keys { keys := keys + [pool[idx]]; }
      }
    }

    /** The first of the keys with the smallest visit time. */
    method Oldest(keys: seq<Bytes>) returns (victim: Bytes)
      requires Valid() && keys != [] && forall k :: k in keys ==> k in objects
      ensures victim in keys && forall k :: k in keys ==> objects[victim].visited <= objects[k].visited
    {
      hide Filed, Pooled, Values;
      victim := keys[0];
      for i := 1 to |keys|
        invariant victim in keys
        invariant forall j :: 0 <= j < i ==> objects[victim].visited <= objects[keys[j]].visited
      {
        var x := Fetch(victim);
        var y := Fetch(keys[i]);
        if y.value.visited < x.value.visited { victim := keys[i]; }
      }
    }

    /** One step of approximate LRU: the least recently visited of the sampled keys goes, and is reported. */
    method KeyEvictionLruHelper(deleted: seq<Bytes>) returns (victim: Bytes, deleted': seq<Bytes>, sample: seq<Bytes>)
      requires Valid() && pool != []
      modifies this, buckets
      ensures Valid() && |pool| == |old(pool)| - 1 && deleted' == deleted + [victim]
      ensures 1 <= |sample| <= 10 && (forall k :: k in sample ==> k in old(objects))
      ensures victim in sample && objects == old(objects) - {victim}
      ensures forall k :: k in sample ==> old(objects)[victim].visited <= old(objects)[k].visited
    {
      hide Filed, Pooled, Values;
      sample := Candidates();
      victim := Oldest(sample);
      var found := Delete(victim);
      deleted' := if found then deleted + [victim] else deleted;
    }

    /** LRU eviction reports exactly the keys it removes, each once; only the clock ends it early. */
    method KeyEvictionLru(num: nat, clock: nat -> nat) returns (deleted: seq<Bytes>)
      requires Valid()
      modifies this, buckets
      ensures Valid() && Distinct(deleted) && objects == old(objects) - Range(deleted)
      ensures |pool| == |old(pool)| - |deleted|
      ensures num > 0 && old(pool) != [] ==> deleted != []
      ensures num > 0 && (forall i :: clock(0) <= clock(i) <= clock(0) + 25) ==> Contents() == map[]
    {
      hide Filed, Pooled, Values, Range;
      deleted := [];
      RangeNone(deleted);
      assert objects == old(objects) - {};
      var nDeleted, start, tick := 0, clock(0), 0;
      while pool != [] && nDeleted < num
        invariant Valid() && Distinct(deleted) && objects == old(objects) - Range(deleted)
        invariant |pool| == |old(pool)| - |deleted| && nDeleted == 0
        decreases |pool|
      {
        var victim, more, sample := KeyEvictionLruHelper(deleted);
        DistinctSnoc(old(objects), deleted, victim);
        deleted := more;
        tick := tick + 1;
        if clock(tick) < start || clock(tick) - start > 25 { return; }
      }
      if pool == [] { NoKeys(pool, objects); }
    }
  }

  lemma PoolHas(pool: seq<Bytes>, objects: Objects, i: nat)
    requires Pooled(pool, objects) && i < |pool|
    ensures pool[i] in objects
  {
  }

  lemma PoolSize(pool: seq<Bytes>, objects: Objects)
    requires Pooled(pool, objects)
    ensures |Values(objects)| == |pool|
  {
    DistinctSize(pool, objects.Keys);
    assert Values(objects).Keys == objects.Keys;
  }

  lemma NoKeys(pool: seq<Bytes>, objects: Objects)
    requires Pooled(pool, objects) && pool == []
    ensures Values(objects) == map[]
  {
  }

  lemma MinusMinus<V>(m: map<Bytes, V>, gone: set<Bytes>, key: Bytes)
    ensures m - gone - {key} == m - (gone + {key})
  {
  }

  lemma ValuesMinus(objects: Objects, gone: set<Bytes>)
    ensures Values(objects - gone) == Values(objects) - gone && Values(objects).Keys == objects.Keys
  {
  }

  lemma DistinctSnoc(objects: Objects, deleted: seq<Bytes>, victim: Bytes)
    requires Distinct(deleted) && victim in objects - Range(deleted)
    ensures Distinct(deleted + [victim]) && objects - Range(deleted) - {victim} == objects - Range(deleted + [victim])
  {
    var more := deleted + [victim];
    RangeSnoc(more, |deleted|);
    assert more[..|deleted|] == deleted && more[..|more|] == more;
    assert forall i :: 0 <= i < |deleted| ==> deleted[i] in Range(deleted);
  }

  ghost function Below(objects: Objects, n: nat): set<Bytes> { set k | k in objects && Bucket(k) < n }

  lemma NoneBelow(objects: Objects)
    ensures |Below(objects, 0)| == 0
  {
  }

  lemma AllBelow(objects: Objects)
    ensures Below(objects, 512) == objects.Keys == Values(objects).Keys
  {
  }

  lemma BelowStep(buckets: seq<Objects>, objects: Objects, i: nat)
    requires Filed(buckets, objects) && i < 512
    ensures |Below(objects, i + 1)| == |Below(objects, i)| + |buckets[i]|
  {
    assert Below(objects, i + 1) == Below(objects, i) + buckets[i].Keys;
  }

  /** `n` keys are gone of those that `keys` name. */
  ghost predicate Deleted(was: Objects, keys: seq<Bytes>, objects: Objects, n: nat) {
    objects == was - Named(keys) && n == |was| - |objects|
  }

  lemma NothingDeleted(objects: Objects, keys: seq<Bytes>)
    ensures Deleted(objects, keys[..0], objects, 0)
  {
  }

  lemma DeletedOne(was: Objects, keys: seq<Bytes>, i: nat, objects: Objects, n: nat)
    requires i < |keys| && Deleted(was, keys[..i], objects, n)
    ensures Deleted(was, keys[..i + 1], objects - {CStr(keys[i])}, n + if CStr(keys[i]) in objects then 1 else 0)
  {
    hide CStr;
    var k := CStr(keys[i]);
    NamedSnoc(keys[..i], keys[i]);
    assert keys[..i + 1] == keys[..i] + [keys[i]];
    hide Named;
    MinusMinus(was, Named(keys[..i]), k);
    MinusSize(objects, k);
  }

  lemma MinusSize(objects: Objects, k: Bytes)
    ensures |objects - {k}| == |objects| - if k in objects then 1 else 0
  {
    assert (objects - {k}).Keys == objects.Keys - {k};
  }

  lemma AllDeleted(was: Objects, keys: seq<Bytes>, objects: Objects, n: nat)
    requires Deleted(was, keys, objects, n)
    ensures objects == was - Named(keys) && n == |was| - |objects|
  {
  }

  lemma RangeNone(s: seq<Bytes>)
    ensures Range(s[..0]) == {}
  {
  }

  lemma RangeSnoc(s: seq<Bytes>, i: nat)
    requires i < |s|
    ensures Range(s[..i + 1]) == Range(s[..i]) + {s[i]}
  {
    forall x | x in Range(s[..i]) + {s[i]} ensures x in Range(s[..i + 1]) {
      if x != s[i] {
        var j :| 0 <= j < i && s[..i][j] == x;
        assert s[..i + 1][j] == x;
      } else {
        assert s[..i + 1][i] == x;
      }
    }
  }

  lemma EraseStep(was: map<Bytes, Bytes>, fields: seq<Bytes>, i: nat)
    requires i < |fields|
    ensures var dict := was - Range(fields[..i]);
            was - Range(fields[..i + 1]) == dict - {fields[i]} &&
            |dict - {fields[i]}| == |dict| - if fields[i] in dict then 1 else 0
  {
    var dict := was - Range(fields[..i]);
    RangeSnoc(fields, i);
    assert (dict - {fields[i]}).Keys == dict.Keys - {fields[i]};
    MinusMinus(was, Range(fields[..i]), fields[i]);
  }
}
