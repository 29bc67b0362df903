/** The decoders of the snapshot loader, advancing a cursor through the mapped file. */
module SnapshotReader {
  import opened ByteStrings
  import opened Decimal
  import opened Store
  import opened Compaction
  import opened Varint
  import opened Snapshots

  class Reader {
    const data: Bytes
    var cursor: nat
    var remain: nat

    /** Cursor and remaining bytes always add up to the file. */
    ghost predicate Valid()
      reads this
    {
      cursor + remain == |data|
    }

    ghost function Rest(): Bytes
      reads this
      requires Valid()
    {
      data[cursor..]
    }

    constructor (data: Bytes)
      ensures Valid() && Rest() == data && this.data == data
    {
      this.data := data;
      cursor, remain := 0, |data|;
    }

    /** Never past the end: `remain` does not wrap around. */
    method Advance(step: nat)
      requires Valid() && step <= remain
      modifies this
      ensures Valid() && cursor == old(cursor) + step && remain == old(remain) - step
      ensures Rest() == old(Rest())[step..]
    {
      cursor, remain := cursor + step, remain - step;
    }

    method DecodeInteger() returns (valen: UInt64)
      requires Valid()
      modifies this
      ensures Valid() && Got(valen, Rest()) == ReadInt(old(Rest()))
    {
      hide Halfway, Decode, Pow, Gather;
      ghost var s := Rest();
      valen := 0;
      var i: nat, weight: nat := 0, 1;
      ghost var acc: nat := 0;
      Started(s);
      PowStep(0);
      while i < 10
        invariant Valid() && i <= 10 && i <= |s| && Rest() == s[i..] && weight == Pow(i) && Halfway(s, i, acc, valen)
      {
        if remain < 1 {
          Stopped(s, i, acc, valen);
          return;
        }
        NextByte(s, i, acc, valen);
        PowStep(i);
        var b := data[cursor];
        assert b == s[i];
        Advance(1);
        valen := Gather(valen, weight, b);
        if b < 128 { return; }
        acc := acc + Times(weight, Low(b));
        i, weight := i + 1, 128 * weight;
      }
      Stopped(s, i, acc, valen);
    }

    method DecodeStdString() returns (s: Bytes)
      requires Valid()
      modifies this
      ensures Valid() && Got(s, Rest()) == ReadStr(old(Rest())) && remain == |ReadStr(old(Rest())).rest|
    {
      hide ReadInt;
      var n := DecodeInteger();
      if n == 0 || remain < n { return []; }
      s := data[cursor..cursor + n];
      assert s == Rest()[..n];
      Advance(n);
    }

    /** However large the encoded count is, there are at most half as many rounds as bytes, and one more. */
    method DecodeDList() returns (items: seq<Bytes>, rounds: nat)
      requires Valid()
      modifies this
      ensures Valid() && Got(items, Rest()) == ReadList(old(Rest()))
      ensures rounds <= old(remain) / 2 + 1
    {
      hide ReadInt, ReadStr;
      ghost var all := ReadList(Rest());
      var count := DecodeInteger();
      items, rounds := [], 0;
      ghost var start := remain;
      while rounds < count
        invariant Valid() && rounds <= count && 2 * rounds <= start - remain && start <= old(remain)
        invariant ReadItems(Rest(), count - rounds, items) == all
        decreases remain
      {
        ghost var before := Rest();
        var elem := DecodeStdString();
        rounds := rounds + 1;
        if elem == [] { return; }
        items := items + [elem];
      }
    }

    method DecodeHashDict() returns (m: map<Bytes, Bytes>, rounds: nat)
      requires Valid()
      modifies this
      ensures Valid() && Got(m, Rest()) == ReadDict(old(Rest()))
      ensures rounds <= old(remain) / 2 + 1
    {
      hide ReadInt, ReadStr;
      ghost var all := ReadDict(Rest());
      var count := DecodeInteger();
      m, rounds := map[], 0;
      ghost var start := remain;
      while rounds < count
        invariant Valid() && rounds <= count && 2 * rounds <= start - remain && start <= old(remain)
        invariant ReadPairs(Rest(), count - rounds, m) == all
        decreases remain
      {
        var key := DecodeStdString();
        rounds := rounds + 1;
        if key == [] { return; }
        var value := DecodeStdString();
        if value == [] { return; }
        m := m[key := value];
      }
    }

    /** Inserts as it goes; the set is that of the strings a list would hold. */
    method DecodeHashSet() returns (members: set<Bytes>, rounds: nat)
      requires Valid()
      modifies this
      ensures Valid()
      ensures var l := ReadList(old(Rest())); members == Range(l.value) && Rest() == l.rest
      ensures rounds <= old(remain) / 2 + 1
    {
      hide ReadInt, ReadStr, Range;
      ghost var all := ReadList(Rest());
      var count := DecodeInteger();
      members, rounds := {}, 0;
      ghost var start, items := remain, [];
      EmptyRange();
      while rounds < count
        invariant Valid() && rounds <= count && 2 * rounds <= start - remain && start <= old(remain)
        invariant ReadItems(Rest(), count - rounds, items) == all && members == Range(items)
        decreases remain
      {
        var elem := DecodeStdString();
        rounds := rounds + 1;
        if elem == [] { return; }
        RangeAppend(items, elem);
        members := members + {elem};
        items := items + [elem];
      }
    }
  }

  lemma EmptyRange()
    ensures Range([]) == {}
  {
  }
}

/** Loading a snapshot into the container, and taking one. */
module SnapshotFiles {
  import opened Wrappers
  import opened ByteStrings
  import opened Decimal
  import opened Store
  import opened Compaction
  import opened Container
  import opened Varint
  import opened Snapshots
  import opened SnapshotReader

  /** Start flag, type, expiry flag and timestamp of a record. */
  method DecodeFront(reader: Reader) returns (fine: bool, kind: byte, expires: bool, when: nat)
    requires reader.Valid()
    modifies reader
    ensures reader.Valid()
    ensures ReadFront(old(reader.Rest())) ==
            if fine then Front(kind, expires, when, reader.Rest()) else Unrecognized(reader.Rest())
  {
    hide FromFixed;
    kind, expires, when := 0, false, 0;
    ghost var s := reader.Rest();
    if reader.remain < 1 || reader.data[reader.cursor] != 255 { return false, 0, false, 0; }
    reader.Advance(1);
    if reader.remain < 1 { return false, 0, false, 0; }
    kind := reader.data[reader.cursor];
    assert kind == s[1];
    reader.Advance(1);
    if kind < 1 || kind > 5 { return false, 0, false, 0; }
    if reader.remain < 1 { return false, 0, false, 0; }
    expires := reader.data[reader.cursor] != 0;
    assert expires == (s[2] != 0);
    reader.Advance(1);
    assert reader.Rest() == s[3..];
    if expires {
      if reader.remain < 8 { return false, 0, false, 0; }
      when := FromFixed(reader.data[reader.cursor..reader.cursor + 8]);
      assert reader.data[reader.cursor..reader.cursor + 8] == s[3..11];
      reader.Advance(8);
      assert reader.Rest() == s[11..];
    }
    fine := true;
  }

  method PushEach(holder: KVContainer, key: Bytes, items: seq<Bytes>, now: nat)
    requires holder.Valid()
    modifies holder, holder.buckets
    ensures holder.Valid()
    ensures holder.Contents() == Put(old(holder.Contents()), key, PushItems(Look(old(holder.Contents()), key), items))
  {
    hide PushAll, Filed, Pooled, Values;
    ghost var was := holder.Contents();
    PutSame(was, key);
    for i := 0 to |items|
      invariant holder.Valid()
      invariant holder.Contents() == Put(was, key, PushItems(Look(was, key), items[..i]))
    {
      PushOneMore(Look(was, key), items, i);
      PutTwice(was, key, PushItems(Look(was, key), items[..i]), PushItems(Look(was, key), items[..i + 1]));
      hide PushItems, Push;
      var length, code := holder.ListPush(key, [items[i]], false, now);
    }
    assert items[..|items|] == items;
  }

  method MergeAll(holder: KVContainer, key: Bytes, m: map<Bytes, Bytes>, now: nat)
    requires holder.Valid()
    modifies holder, holder.buckets
    ensures holder.Valid()
    ensures holder.Contents() == Put(old(holder.Contents()), key, Merge(Look(old(holder.Contents()), key), m))
  {
    hide Filed, Pooled, Values;
    ghost var was := holder.Contents();
    PutSame(was, key);
    var left, done: map<Bytes, Bytes> := m.Keys, map[];
    MergeNone(Look(was, key));
    while left != {}
      invariant holder.Valid() && left <= m.Keys && done == m - left
      invariant holder.Contents() == Put(was, key, Merge(Look(was, key), done))
      decreases |left|
    {
      var f :| f in left;
      MinusOneLess(m, left, f);
      var more := done[f := m[f]];
      MergeOneMore(Look(was, key), done, f, m[f]);
      PutTwice(was, key, Merge(Look(was, key), done), Merge(Look(was, key), more));
      hide Merge, HashUpdate;
      var count, code := holder.HashUpdateKV(key, [f], [m[f]], now);
      done, left := more, left - {f};
    }
    assert done == m;
  }

  lemma PutTwice(db: Db, key: Bytes, v: Option<Value>, w: Option<Value>)
    ensures Look(Put(db, key, v), key) == v && Put(Put(db, key, v), key, w) == Put(db, key, w)
  {
  }

  lemma PushOneMore(v: Option<Value>, items: seq<Bytes>, i: nat)
    requires i < |items|
    ensures Push(PushItems(v, items[..i]), [items[i]], false).after == PushItems(v, items[..i + 1])
  {
    hide PushAll;
    var was := if v.Some? && v.value.List? then v.value.items else [];
    PushRight(was, items[..i]);
    PushRight(was, items[..i + 1]);
    PushRight(was, [items[i]]);
    PushRight(was + items[..i], [items[i]]);
    assert was + items[..i] + [items[i]] == was + items[..i + 1];
    if i == 0 { assert was + items[..0] == was; }
  }

  lemma MergeNone(v: Option<Value>)
    ensures Merge(v, map[]) == v
  {
    if v.Some? && v.value.Dict? { assert v.value.fields + map[] == v.value.fields; }
  }

  lemma OneUpdate(m: map<Bytes, Bytes>, f: Bytes, x: Bytes)
    ensures UpdateAll(m, Zip([f], [x])) == m[f := x]
  {
    ZipSnoc([], [], f, x);
    UpdateAllSnoc(m, [], f, x);
    assert [] + [f] == [f] && [] + [x] == [x] && [] + [f, x] == [f, x];
  }

  lemma MergeOneMore(v: Option<Value>, done: map<Bytes, Bytes>, f: Bytes, x: Bytes)
    ensures HashUpdate(Merge(v, done), Zip([f], [x])).after == Merge(v, done[f := x])
  {
    hide UpdateAll, Zip;
    OneUpdate(map[], f, x);
    OneUpdate(done, f, x);
    assert f in done[f := x];
    if v.Some? && v.value.Dict? {
      OneUpdate(v.value.fields + done, f, x);
      assert (v.value.fields + done)[f := x] == v.value.fields + done[f := x];
    }
  }

  method JoinAll(holder: KVContainer, key: Bytes, members: set<Bytes>, now: nat)
    requires holder.Valid()
    modifies holder, holder.buckets
    ensures holder.Valid()
    ensures holder.Contents() == Put(old(holder.Contents()), key, Join(Look(old(holder.Contents()), key), members))
  {
    hide Filed, Pooled, Values;
    ghost var was := holder.Contents();
    PutSame(was, key);
    var left, done: set<Bytes> := members, {};
    JoinNone(Look(was, key));
    while left != {}
      invariant holder.Valid() && left <= members && done == members - left
      invariant holder.Contents() == Put(was, key, Join(Look(was, key), done))
      decreases |left|
    {
      var x :| x in left;
      JoinOneMore(Look(was, key), done, x);
      PutTwice(was, key, Join(Look(was, key), done), Join(Look(was, key), done + {x}));
      hide Join, SetAdd;
      var count, code := holder.SetAddItem(key, [x], now);
      done, left := done + {x}, left - {x};
    }
    assert done == members;
  }

  lemma JoinNone(v: Option<Value>)
    ensures Join(v, {}) == v
  {
    if v.Some? && v.value.Set? { assert v.value.members + {} == v.value.members; }
  }

  lemma JoinOneMore(v: Option<Value>, done: set<Bytes>, x: Bytes)
    ensures SetAdd(Join(v, done), [x]).after == Join(v, done + {x})
  {
    assert [x][0] in Range([x]);
    assert Range([x]) == {x};
    hide Range;
    assert x in done + {x};
    if v.None? && done == {} { assert done + {x} == {x}; }
    if v.Some? && v.value.Set? { assert v.value.members + done + {x} == v.value.members + (done + {x}); }
  }

  /** The value of a record, put into the container. */
  method LoadValue(reader: Reader, holder: KVContainer, key: Bytes, kind: byte, keep: bool, now: nat)
    requires reader.Valid() && holder.Valid() && 1 <= kind <= 5
    modifies reader, holder, holder.buckets
    ensures reader.Valid() && holder.Valid()
    ensures var r := ReadValue(old(reader.Rest()), kind, Look(old(holder.Contents()), key), keep);
            reader.Rest() == r.rest && holder.Contents() == Put(old(holder.Contents()), key, r.value)
  {
    hide Filed, Pooled, Values, ReadInt, ReadStr, ReadList, ReadDict, PushItems, Merge, Join, Range;
    PutSame(holder.Contents(), key);
    if kind == 1 {
      var n := reader.DecodeInteger();
      if keep { holder.SetInt(key, ToSigned(n) as int64, now); }
    } else if kind == 2 {
      var t := reader.DecodeStdString();
      if keep { holder.SetString(key, t, now); }
    } else if kind == 3 {
      var items, rounds := reader.DecodeDList();
      if keep { PushEach(holder, key, items, now); }
    } else if kind == 4 {
      var m, rounds := reader.DecodeHashDict();
      if keep { MergeAll(holder, key, m, now); }
    } else {
      var members, rounds := reader.DecodeHashSet();
      if keep { JoinAll(holder, key, members, now); }
    }
  }

  method LoadRecord(reader: Reader, holder: KVContainer, now: nat) returns (fine: bool)
    requires reader.Valid() && holder.Valid()
    modifies reader, holder, holder.buckets
    ensures reader.Valid() && holder.Valid()
    ensures ReadRecord(old(reader.Rest()), old(holder.Contents()), now) == Loaded(holder.Contents(), reader.Rest(), fine)
  {
    hide Filed, Pooled, Values, ReadFront, ReadStr, ReadValue;
    var kind, expires, when;
    fine, kind, expires, when := DecodeFront(reader);
    if !fine { return; }
    var key := reader.DecodeStdString();
    LoadValue(reader, holder, key, kind, !expires || when > now, now);
    if reader.remain < 1 { return false; }
    fine := reader.data[reader.cursor] == 254;
    reader.Advance(1);
  }

  /** `LiteKVLoad` on a mapped file: any bytes are read within bounds, and the loop ends. */
  method LiteKVLoad(file: Bytes, holder: KVContainer, now: nat) returns (fine: bool, ghost rest: Bytes)
    requires holder.Valid()
    modifies holder, holder.buckets
    ensures holder.Valid()
    ensures Load(file, old(holder.Contents()), now) == Loaded(holder.Contents(), rest, fine)
  {
    hide Filed, Pooled, Values, ReadRecord, FromFixed;
    rest := file;
    if |file| < 10 || file[..6] != [76, 73, 84, 69, 75, 86] { return false, rest; }
    assert HEADER[..6] == [76, 73, 84, 69, 75, 86];
    var reader := new Reader(file);
    reader.Advance(10);
    rest := reader.Rest();
    if reader.remain < 8 { return false, rest; }
    var len := FromFixed(file[10..18]);
    reader.Advance(8);
    ghost var all := ReadRecords(reader.Rest(), len, holder.Contents(), now);
    var idx := 1;
    while idx <= len
      invariant reader.Valid() && holder.Valid() && fresh(reader) && 1 <= idx <= len + 1
      invariant ReadRecords(reader.Rest(), len + 1 - idx, holder.Contents(), now) == all
      decreases reader.remain
    {
      ghost var before := reader.Rest();
      fine := LoadRecord(reader, holder, now);
      if !fine { return false, reader.Rest(); }
      idx := idx + 1;
    }
    return true, reader.Rest();
  }

  // ----- Taking a snapshot -----

  ghost predicate ValueSized(v: Value) {
    match v
    case Int(_) => true
    case Str(s) => Sized(s)
    case List(items) => AllSized(items)
    case Dict(m) => |m| < 0x8000_0000_0000_0000 && forall k :: k in m ==> Sized(k) && Sized(m[k])
    case Set(x) => |x| < 0x1_0000_0000_0000_0000 && forall k :: k in x ==> Sized(k)
  }

  /** Lengths and counts that 64 bits can express. */
  ghost predicate StoreSized(db: Db) {
    |db| < 0x1_0000_0000_0000_0000 && forall k :: k in db ==> Sized(k) && ValueSized(db[k])
  }

  method SerializeInt(n: UInt64, buf: Bytes) returns (out: Bytes)
    ensures out == buf + Encode(n)
  {
    var enc := new byte[10];
    var cnt := EncodeVarUnsignedInt64(n, enc);
    out := buf + enc[..cnt];
  }

  method SerializeCharBuf(s: Bytes, buf: Bytes) returns (out: Bytes)
    requires Sized(s)
    ensures out == buf + EncodeStr(s)
  {
    if s == [] {
      assert Encode(0) == [0];
      out := buf + [0];
    } else {
      out := SerializeInt(|s|, buf);
      out := out + s;
    }
  }

  /** Elements of a collection behind their number; nothing for an empty collection. */
  method SerializeAll(n: nat, ss: seq<Bytes>, buf: Bytes) returns (out: Bytes)
    requires n < 0x1_0000_0000_0000_0000 && AllSized(ss)
    ensures out == buf + EncodeCounted(n, ss)
  {
    hide EncodeStr, Encode;
    if n == 0 { return buf; }
    out := SerializeInt(n, buf);
    ghost var front := out;
    for i := 0 to |ss|
      invariant out + EncodeStrs(ss[i..]) == front + EncodeStrs(ss)
    {
      assert ss[i..][1..] == ss[i + 1..];
      ghost var before := out;
      out := SerializeCharBuf(ss[i], out);
      assert out + EncodeStrs(ss[i + 1..]) == before + EncodeStrs(ss[i..]);
    }
    assert out + [] == out;
  }

  lemma ListingSized(e: Entry)
    requires InOrder(e) && ValueSized(e.value) && (e.value.Dict? || e.value.Set?)
    ensures AllSized(e.args)
  {
    forall i | 0 <= i < |e.args| ensures Sized(e.args[i]) {
      if e.value.Dict? {
        ListedValues(e.args, e.value.fields, i / 2);
        assert e.args[2 * (i / 2)] in e.value.fields;
      } else {
        assert e.args[i] in Range(e.args);
      }
    }
  }

  /** `ValueObject::Serialize`. */
  method SerializeValue(key: Bytes, v: Value, buf: Bytes) returns (out: Bytes, args: seq<Bytes>)
    requires Sized(key) && ValueSized(v)
    ensures out == buf + EncodeValue(v, args) && InOrder(Entry(key, v, args)) && EntrySized(Entry(key, v, args))
  {
    hide EncodeStr, Encode, EncodeCounted, ListsDict, ListsSet;
    args := [];
    match v {
      case Int(n) => out := SerializeInt(ToUnsigned(n), buf);
      case Str(s) => out := SerializeCharBuf(s, buf);
      case List(items) => out := SerializeAll(|items|, items, buf);
      case Dict(m) =>
        args := ListDict(m);
        ListingSized(Entry(key, v, args));
        out := SerializeAll(|m|, args, buf);
      case Set(x) =>
        args := ListSet(x);
        ListingSized(Entry(key, v, args));
        out := SerializeAll(|x|, args, buf);
    }
  }

  method SerializeEntry(key: Bytes, v: Value, buf: Bytes) returns (out: Bytes, e: Entry)
    requires Sized(key) && ValueSized(v)
    ensures e.key == key && e.value == v && InOrder(e) && EntrySized(e)
    ensures out == buf + EncodeEntry(e.key, e.value, e.args)
  {
    hide EncodeStr, EncodeValue, InOrder, EntrySized, ValueSized;
    var front := [255, TypeOf(v), 0];
    var named := SerializeCharBuf(key, front);
    var body, args := SerializeValue(key, v, named);
    e := Entry(key, v, args);
    out := buf + (body + [254]);
  }

  function Keys(es: seq<Entry>): set<Bytes> { set i | 0 <= i < |es| :: es[i].key }

  lemma KeysSnoc(es: seq<Entry>, e: Entry)
    ensures Keys(es + [e]) == Keys(es) + {e.key}
  {
    forall k | k in Keys(es) ensures k in Keys(es + [e]) {
      var i :| 0 <= i < |es| && es[i].key == k;
      assert (es + [e])[i].key == k;
    }
    assert (es + [e])[|es|].key == e.key;
  }

  lemma {:induction false} EncodeEntriesSnoc(es: seq<Entry>, e: Entry)
    ensures EncodeEntries(es + [e]) == EncodeEntries(es) + EncodeEntry(e.key, e.value, e.args)
  {
    hide EncodeEntry;
    if es == [] {
      assert [e][1..] == [] && EncodeEntries([e]) == EncodeEntry(e.key, e.value, e.args) + [];
    } else {
      EncodeEntriesSnoc(es[1..], e);
      assert (es + [e])[1..] == es[1..] + [e];
    }
  }

  /** Entries written so far: different keys of the store with their values, each sized. */
  ghost predicate Partial(es: seq<Entry>, db: Db, keys: set<Bytes>) {
    && (forall i, j :: 0 <= i < j < |es| ==> es[i].key != es[j].key)
    && (forall i :: 0 <= i < |es| ==> InOrder(es[i]) && EntrySized(es[i]) && es[i].key in db && db[es[i].key] == es[i].value)
    && Keys(es) == keys && |es| == |keys|
  }

  lemma PartialSnoc(es: seq<Entry>, db: Db, keys: set<Bytes>, e: Entry)
    requires Partial(es, db, keys) && InOrder(e) && EntrySized(e) && e.key in db && db[e.key] == e.value && e.key !in keys
    ensures Partial(es + [e], db, keys + {e.key})
  {
    hide InOrder, EntrySized;
    KeysSnoc(es, e);
    forall i | 0 <= i < |es| ensures es[i].key != e.key { assert es[i].key in Keys(es); }
  }

  lemma PartialAll(es: seq<Entry>, db: Db)
    requires Partial(es, db, db.Keys)
    ensures Lists(es, db) && |es| == |db|
  {
    hide InOrder, EntrySized;
    forall k | k in db ensures exists i :: 0 <= i < |es| && es[i].key == k { assert k in Keys(es); }
  }

  /** The entries of one bucket, in any order. */
  method SnapshotBucket(content: Objects, buf: Bytes, es: seq<Entry>, ghost db: Db, ghost keys: set<Bytes>)
    returns (out: Bytes, more: seq<Entry>)
    requires StoreSized(db) && Partial(es, db, keys) && buf == EncodeEntries(es) && keys !! content.Keys
    requires forall k :: k in content ==> k in db && db[k] == content[k].value
    ensures Partial(more, db, keys + content.Keys) && out == EncodeEntries(more)
  {
    hide Partial, EncodeEntries, EncodeEntry, ValueSized, Sized, InOrder, EntrySized, StoreSized;
    out, more := buf, es;
    var left := content.Keys;
    ghost var done := keys;
    while left != {}
      invariant left <= content.Keys && done == keys + (content.Keys - left)
      invariant Partial(more, db, done) && out == EncodeEntries(more)
      decreases |left|
    {
      var k :| k in left;
      var e;
      StoreSizedAt(db, k);
      out, e := SerializeEntry(k, content[k].value, out);
      EncodeEntriesSnoc(more, e);
      PartialSnoc(more, db, done, e);
      more, done, left := more + [e], done + {k}, left - {k};
    }
  }

  lemma StoreSizedAt(db: Db, k: Bytes)
    requires StoreSized(db) && k in db
    ensures Sized(k) && ValueSized(db[k])
  {
  }

  /** `KVContainer::Snapshot` behind the header that `LiteKVSave` writes. */
  method Snapshot(holder: KVContainer) returns (file: Bytes, es: seq<Entry>)
    requires holder.Valid() && StoreSized(holder.Contents())
    ensures file == File(es) && Lists(es, holder.Contents()) && |es| == |holder.Contents()|
    ensures forall i :: 0 <= i < |es| ==> EntrySized(es[i])
  {
    hide Partial, EncodeEntries, Fixed, Bucket, Pooled, StoreSized;
    var count := holder.NumItems();
    var buf := [];
    es := [];
    StartPartial(holder.Contents());
    NoneBelow(holder.objects);
    assert Below(holder.objects, 0) == {};
    for i := 0 to 512
      invariant Partial(es, holder.Contents(), Below(holder.objects, i)) && buf == EncodeEntries(es)
    {
      BucketPart(holder.buckets[..], holder.objects, i);
      buf, es := SnapshotBucket(holder.buckets[i], buf, es, holder.Contents(), Below(holder.objects, i));
    }
    AllBelow(holder.objects);
    PartialAll(es, holder.Contents());
    PartialSized(es, holder.Contents());
    file := [76, 73, 84, 69, 75, 86, 48, 48, 48, 49] + Fixed(count, 8) + buf;
  }

  lemma StartPartial(db: Db)
    ensures Partial([], db, {}) && EncodeEntries([]) == []
  {
  }

  lemma PartialSized(es: seq<Entry>, db: Db)
    requires Partial(es, db, db.Keys)
    ensures forall i :: 0 <= i < |es| ==> EntrySized(es[i])
  {
  }

  lemma BucketPart(buckets: seq<Objects>, objects: Objects, i: nat)
    requires Filed(buckets, objects) && i < 512
    ensures Below(objects, i) !! buckets[i].Keys && Below(objects, i + 1) == Below(objects, i) + buckets[i].Keys
    ensures forall k :: k in buckets[i] ==> k in Values(objects) && Values(objects)[k] == buckets[i][k].value
  {
  }

  /** Snapshot and load: a fresh container gets the same store back exactly when no collection is
      empty or holds an empty string. */
  method SaveAndLoad(holder: KVContainer, now: nat) returns (copy: KVContainer, fine: bool)
    requires holder.Valid() && StoreSized(holder.Contents())
    ensures copy.Valid() && (copy.Contents() == holder.Contents() <==> AllLoadable(holder.Contents()))
    ensures AllLoadable(holder.Contents()) ==> fine
  {
    hide Lists, Load, File, EntrySized, AllLoadable, Filed, Pooled, Values;
    var file, es := Snapshot(holder);
    copy := new KVContainer();
    ghost var rest;
    SnapshotRoundTripIff(es, holder.Contents(), now);
    fine, rest := LiteKVLoad(file, copy, now);
  }
}
