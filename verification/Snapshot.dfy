/** The binary snapshot: writer and loader as functions on byte strings. */
module Snapshots {
  import opened Wrappers
  import opened ByteStrings
  import opened Decimal
  import opened Store
  import opened Commands
  import opened Compaction
  import opened Varint

  // ----- Writing -----

  /** `SerializeCharBuf`; an empty string is the single byte zero. */
  function EncodeStr(s: Bytes): Bytes { Encode(|s|) + s }

  function EncodeStrs(ss: seq<Bytes>): Bytes {
    if ss == [] then [] else EncodeStr(ss[0]) + EncodeStrs(ss[1..])
  }

  /** Elements of a collection behind their number; an empty collection leaves no byte at all. */
  function EncodeCounted(n: nat, ss: seq<Bytes>): Bytes {
    if n == 0 then [] else Encode(n) + EncodeStrs(ss)
  }

  /** `ValueObject::Serialize`; `args` lists a hash or a set in the order of its table. */
  function EncodeValue(v: Value, args: seq<Bytes>): Bytes {
    match v
    case Int(n) => Encode(ToUnsigned(n))
    case Str(s) => EncodeStr(s)
    case List(items) => EncodeCounted(|items|, items)
    case Dict(m) => EncodeCounted(|m|, args)
    case Set(x) => EncodeCounted(|x|, args)
  }

  function TypeOf(v: Value): byte {
    match v
    case Int(_) => 1
    case Str(_) => 2
    case List(_) => 3
    case Dict(_) => 4
    case Set(_) => 5
  }

  function EncodeEntry(key: Bytes, v: Value, args: seq<Bytes>): Bytes {
    [255, TypeOf(v), 0] + EncodeStr(key) + EncodeValue(v, args) + [254]
  }

  /** One entry: a key with its value, and the order in which a hash or set is written. */
  datatype Entry = Entry(key: Bytes, value: Value, args: seq<Bytes>)

  function EncodeEntries(es: seq<Entry>): Bytes {
    if es == [] then [] else EncodeEntry(es[0].key, es[0].value, es[0].args) + EncodeEntries(es[1..])
  }

  const HEADER: Bytes := [76, 73, 84, 69, 75, 86, 48, 48, 48, 49]

  /** Header, number of entries, entries. */
  function File(es: seq<Entry>): Bytes { HEADER + Fixed(|es|, 8) + EncodeEntries(es) }

  ghost predicate InOrder(e: Entry) {
    (e.value.Dict? ==> ListsDict(e.args, e.value.fields)) && (e.value.Set? ==> ListsSet(e.args, e.value.members))
  }

  /** The entries list the store, each key once. */
  ghost predicate Lists(es: seq<Entry>, db: Db) {
    && (forall i, j :: 0 <= i < j < |es| ==> es[i].key != es[j].key)
    && (forall i :: 0 <= i < |es| ==> InOrder(es[i]) && es[i].key in db && db[es[i].key] == es[i].value)
    && (forall k :: k in db ==> exists i :: 0 <= i < |es| && es[i].key == k)
  }

  // ----- Reading -----

  datatype Got<T> = Got(value: T, rest: Bytes)

  function ReadInt(s: Bytes): (r: Got<UInt64>)
    ensures |r.rest| <= |s| && (s != [] ==> |r.rest| < |s|)
  {
    var n := Decode(s, 10);
    Got(Low64(n), s[n.used..])
  }

  /** A length that runs past the end reads as an empty string. */
  function ReadStr(s: Bytes): (r: Got<Bytes>)
    ensures |r.rest| <= |s| && (s != [] ==> |r.rest| < |s|)
    ensures r.value != [] ==> |r.rest| + 2 <= |s|
  {
    var n := ReadInt(s);
    if n.value == 0 || |n.rest| < n.value then Got([], n.rest) else Got(n.rest[..n.value], n.rest[n.value..])
  }

  /** Up to `count` strings; an empty one ends the collection. */
  function ReadItems(s: Bytes, count: nat, got: seq<Bytes>): (r: Got<seq<Bytes>>)
    ensures |r.rest| <= |s|
    decreases |s|
  {
    if count == 0 then Got(got, s)
    else
      var e := ReadStr(s);
      if e.value == [] then Got(got, e.rest) else ReadItems(e.rest, count - 1, got + [e.value])
  }

  function ReadPairs(s: Bytes, count: nat, got: map<Bytes, Bytes>): (r: Got<map<Bytes, Bytes>>)
    ensures |r.rest| <= |s|
    decreases |s|
  {
    if count == 0 then Got(got, s)
    else
      var k := ReadStr(s);
      if k.value == [] then Got(got, k.rest)
      else
        var v := ReadStr(k.rest);
        if v.value == [] then Got(got, v.rest) else ReadPairs(v.rest, count - 1, got[k.value := v.value])
  }

  function ReadList(s: Bytes): (r: Got<seq<Bytes>>)
    ensures |r.rest| <= |s|
  {
    var n := ReadInt(s);
    ReadItems(n.rest, n.value, [])
  }

  function ReadDict(s: Bytes): (r: Got<map<Bytes, Bytes>>)
    ensures |r.rest| <= |s|
  {
    var n := ReadInt(s);
    ReadPairs(n.rest, n.value, map[])
  }

  /** Decoded fields put one by one into what the store has under the key. */
  function Merge(v: Option<Value>, m: map<Bytes, Bytes>): Option<Value> {
    match v
    case None => if m == map[] then None else Some(Dict(m))
    case Some(Dict(fields)) => Some(Dict(fields + m))
    case Some(_) => v
  }

  function Join(v: Option<Value>, x: set<Bytes>): Option<Value> {
    match v
    case None => if x == {} then None else Some(Set(x))
    case Some(Set(members)) => Some(Set(members + x))
    case Some(_) => v
  }

  function PushItems(v: Option<Value>, items: seq<Bytes>): Option<Value> {
    if items == [] then v else Push(v, items, false).after
  }

  /** The value part of a record, and what becomes of the key; an expired record is read and dropped. */
  function ReadValue(s: Bytes, kind: byte, v: Option<Value>, keep: bool): (r: Got<Option<Value>>)
    requires 1 <= kind <= 5
    ensures |r.rest| <= |s|
  {
    if kind == 1 then
      var n := ReadInt(s); Got(if keep then Some(Int(ToSigned(n.value))) else v, n.rest)
    else if kind == 2 then
      var t := ReadStr(s); Got(if keep then Some(Str(t.value)) else v, t.rest)
    else if kind == 3 then
      var l := ReadList(s); Got(if keep then PushItems(v, l.value) else v, l.rest)
    else if kind == 4 then
      var d := ReadDict(s); Got(if keep then Merge(v, d.value) else v, d.rest)
    else
      var l := ReadList(s); Got(if keep then Join(v, Range(l.value)) else v, l.rest)
  }

  /** The store so far, the bytes not yet read, and whether reading may go on. */
  datatype Loaded = Loaded(db: Db, rest: Bytes, fine: bool)

  datatype Front = Front(kind: byte, expires: bool, when: nat, rest: Bytes) | Unrecognized(rest: Bytes)

  /** Start flag, type, expiry flag and timestamp. */
  function ReadFront(s: Bytes): (r: Front)
    ensures |r.rest| <= |s| && (r.Front? ==> 1 <= r.kind <= 5 && |r.rest| + 3 <= |s|)
  {
    if |s| < 1 || s[0] != 255 then Unrecognized(s)
    else if |s| < 2 then Unrecognized(s[1..])
    else if s[1] < 1 || s[1] > 5 || |s| < 3 then Unrecognized(s[2..])
    else if s[2] == 0 then Front(s[1], false, 0, s[3..])
    else if |s| < 11 then Unrecognized(s[3..])
    else Front(s[1], true, FromFixed(s[3..11]), s[11..])
  }

  function ReadRecord(s: Bytes, db: Db, now: nat): (r: Loaded)
    ensures |r.rest| <= |s| && (r.fine ==> |r.rest| < |s|)
  {
    var f := ReadFront(s);
    if f.Unrecognized? then Loaded(db, f.rest, false)
    else
      var key := ReadStr(f.rest);
      var v := ReadValue(key.rest, f.kind, Look(db, key.value), !f.expires || f.when > now);
      var db' := Put(db, key.value, v.value);
      if v.rest == [] then Loaded(db', [], false) else Loaded(db', v.rest[1..], v.rest[0] == 254)
  }

  function ReadRecords(s: Bytes, n: nat, db: Db, now: nat): Loaded
    decreases n
  {
    if n == 0 then Loaded(db, s, true)
    else
      var r := ReadRecord(s, db, now);
      if !r.fine then r else ReadRecords(r.rest, n - 1, r.db, now)
  }

  /** `LiteKVLoad` into an existing store. */
  function Load(file: Bytes, db: Db, now: nat): Loaded {
    if |file| < 10 || file[..6] != HEADER[..6] then Loaded(db, file, false)
    else if |file| < 18 then Loaded(db, file[10..], false)
    else ReadRecords(file[18..], FromFixed(file[10..18]), db, now)
  }

  // ----- Round trip -----

  predicate Sized(s: Bytes) { |s| < 0x1_0000_0000_0000_0000 }

  ghost predicate AllSized(ss: seq<Bytes>) {
    |ss| < 0x1_0000_0000_0000_0000 && forall i :: 0 <= i < |ss| ==> Sized(ss[i])
  }

  /** Lengths and counts that 64 bits can express. */
  ghost predicate EntrySized(e: Entry) {
    Sized(e.key) && AllSized(e.args) && (e.value.Str? ==> Sized(e.value.s)) && (e.value.List? ==> AllSized(e.value.items))
  }

  ghost predicate NoEmpty(ss: seq<Bytes>) { forall i :: 0 <= i < |ss| ==> ss[i] != [] }

  ghost predicate NoEmptyField(m: map<Bytes, Bytes>) { forall k :: k in m ==> k != [] && m[k] != [] }

  /** What the loader can build: a collection is not empty and holds no empty string. */
  ghost predicate Loadable(v: Value) {
    match v
    case List(items) => items != [] && NoEmpty(items)
    case Dict(m) => m != map[] && NoEmptyField(m)
    case Set(x) => x != {} && [] !in x
    case _ => true
  }

  ghost predicate AllLoadable(db: Db) { forall k :: k in db ==> Loadable(db[k]) }

  lemma ReadIntEncoded(v: UInt64, rest: Bytes)
    ensures ReadInt(Encode(v) + rest) == Got(v, rest)
  {
    hide Encode, Decode;
    RoundTrip(v, rest);
    assert (Encode(v) + rest)[|Encode(v)|..] == rest;
  }

  lemma ReadStrEncoded(s: Bytes, rest: Bytes)
    requires Sized(s)
    ensures ReadStr(EncodeStr(s) + rest) == Got(s, rest)
  {
    hide ReadInt, Encode;
    ReadIntEncoded(|s|, s + rest);
    assert EncodeStr(s) + rest == Encode(|s|) + (s + rest);
    assert (s + rest)[..|s|] == s && (s + rest)[|s|..] == rest;
  }

  lemma {:induction false} ReadItemsEncoded(ss: seq<Bytes>, rest: Bytes, got: seq<Bytes>)
    requires NoEmpty(ss) && forall i :: 0 <= i < |ss| ==> Sized(ss[i])
    ensures ReadItems(EncodeStrs(ss) + rest, |ss|, got) == Got(got + ss, rest)
  {
    hide ReadStr, EncodeStr;
    if ss == [] {
      assert [] + rest == rest && got + [] == got;
    } else {
      var more := EncodeStrs(ss[1..]) + rest;
      assert EncodeStrs(ss) + rest == EncodeStr(ss[0]) + more;
      ReadStrEncoded(ss[0], more);
      ReadItemsEncoded(ss[1..], rest, got + [ss[0]]);
      assert got + [ss[0]] + ss[1..] == got + ss;
    }
  }

  lemma {:induction false} UpdateFront(m: map<Bytes, Bytes>, args: seq<Bytes>)
    requires |args| >= 2 && |args| % 2 == 0
    ensures UpdateAll(m, args) == UpdateAll(m[args[0] := args[1]], args[2..])
  {
    if |args| < 4 {
      assert args[..|args| - 2] == [] || |args[..|args| - 2]| < 2;
    } else {
      var init := args[..|args| - 2];
      UpdateFront(m, init);
      assert args[2..][..|args| - 4] == init[2..];
    }
  }

  lemma EncodeStrsTwo(args: seq<Bytes>, rest: Bytes)
    requires |args| >= 2
    ensures EncodeStrs(args) + rest == EncodeStr(args[0]) + (EncodeStr(args[1]) + (EncodeStrs(args[2..]) + rest))
  {
    hide EncodeStr;
    assert args[1..][1..] == args[2..];
  }

  lemma NoPairs(rest: Bytes, got: map<Bytes, Bytes>)
    ensures EncodeStrs([]) + rest == rest && UpdateAll(got, []) == got
  {
  }

  lemma {:induction false} ReadPairsEncoded(args: seq<Bytes>, n: nat, rest: Bytes, got: map<Bytes, Bytes>)
    requires |args| == 2 * n && NoEmpty(args) && forall i :: 0 <= i < |args| ==> Sized(args[i])
    ensures ReadPairs(EncodeStrs(args) + rest, n, got) == Got(UpdateAll(got, args), rest)
  {
    hide ReadStr, EncodeStr, EncodeStrs, UpdateAll;
    if n == 0 {
      NoPairs(rest, got);
      assert args == [];
    } else {
      var last := EncodeStrs(args[2..]) + rest;
      EncodeStrsTwo(args, rest);
      ReadStrEncoded(args[0], EncodeStr(args[1]) + last);
      ReadStrEncoded(args[1], last);
      ReadPairsEncoded(args[2..], n - 1, rest, got[args[0] := args[1]]);
      UpdateFront(got, args);
    }
  }

  lemma {:induction false} UpdateAllSize(args: seq<Bytes>)
    requires |args| % 2 == 0
    ensures |UpdateAll(map[], args)| <= |args| / 2
  {
    if |args| >= 2 {
      var init := args[..|args| - 2];
      UpdateAllSize(init);
      UpdateGrows(UpdateAll(map[], init), args[|args| - 2], args[|args| - 1]);
    }
  }

  lemma UpdateGrows(m: map<Bytes, Bytes>, k: Bytes, v: Bytes)
    ensures |m[k := v]| == |m| + if k in m then 0 else 1
  {
    assert m[k := v].Keys == m.Keys + {k};
    if k in m { assert m.Keys + {k} == m.Keys; }
  }

  /** A listing names no field twice, so each value in it is the value of its field. */
  lemma {:induction false} ListedValues(args: seq<Bytes>, m: map<Bytes, Bytes>, i: nat)
    requires ListsDict(args, m) && i < |m|
    ensures args[2 * i] in m && m[args[2 * i]] == args[2 * i + 1]
  {
    var init, k, v := args[..|args| - 2], args[|args| - 2], args[|args| - 1];
    var m' := UpdateAll(map[], init);
    UpdateAllSize(init);
    UpdateGrows(m', k, v);
    assert k !in m' && ListsDict(init, m');
    if i < |m| - 1 {
      ListedValues(init, m', i);
      assert init[2 * i] == args[2 * i] && init[2 * i + 1] == args[2 * i + 1];
    }
  }

  /** The listing of a loadable hash or set holds no empty string. */
  lemma ListedNonEmpty(e: Entry)
    requires InOrder(e) && Loadable(e.value) && (e.value.Dict? || e.value.Set?)
    ensures NoEmpty(e.args)
  {
    forall i | 0 <= i < |e.args| ensures e.args[i] != [] {
      if e.value.Dict? {
        ListedValues(e.args, e.value.fields, i / 2);
        assert e.args[2 * (i / 2)] in e.value.fields;
      } else {
        assert e.args[i] in Range(e.args);
      }
    }
  }

  lemma ReadListEncoded(ss: seq<Bytes>, rest: Bytes)
    requires ss != [] && AllSized(ss) && NoEmpty(ss)
    ensures ReadList(EncodeCounted(|ss|, ss) + rest) == Got(ss, rest)
  {
    hide ReadInt, Encode, EncodeStrs, ReadItems;
    var body := EncodeStrs(ss) + rest;
    assert EncodeCounted(|ss|, ss) + rest == Encode(|ss|) + body;
    ReadIntEncoded(|ss|, body);
    ReadItemsEncoded(ss, rest, []);
    assert [] + ss == ss;
  }

  lemma ReadDictEncoded(args: seq<Bytes>, m: map<Bytes, Bytes>, rest: Bytes)
    requires ListsDict(args, m) && m != map[] && AllSized(args) && NoEmpty(args)
    ensures ReadDict(EncodeCounted(|m|, args) + rest) == Got(m, rest)
  {
    hide ReadInt, Encode, EncodeStrs, ReadPairs, UpdateAll;
    NonEmptyMap(m);
    var body := EncodeStrs(args) + rest;
    assert EncodeCounted(|m|, args) + rest == Encode(|m|) + body;
    ReadIntEncoded(|m|, body);
    ReadPairsEncoded(args, |m|, rest, map[]);
  }

  lemma NonEmptyMap(m: map<Bytes, Bytes>)
    requires m != map[]
    ensures |m| > 0
  {
  }

  /** The value part of a record: taken for a key that is new to the store, or read and dropped. */
  lemma ReadValueEncoded(e: Entry, rest: Bytes, keep: bool)
    requires Loadable(e.value) && InOrder(e) && EntrySized(e)
    ensures ReadValue(EncodeValue(e.value, e.args) + rest, TypeOf(e.value), None, keep) ==
            Got(if keep then Some(e.value) else None, rest)
  {
    hide ReadInt, ReadStr, ReadList, ReadDict, EncodeCounted, Encode, EncodeStr, ListsDict;
    match e.value
    case Int(n) => ReadIntEncoded(ToUnsigned(n), rest);
    case Str(s) => ReadStrEncoded(s, rest);
    case List(items) =>
      ReadListEncoded(items, rest);
      PushRight([], items);
      assert [] + items == items;
    case Dict(m) =>
      ListedNonEmpty(e);
      ReadDictEncoded(e.args, m, rest);
    case Set(x) =>
      ListedNonEmpty(e);
      assert e.args != [];
      ReadListEncoded(e.args, rest);
  }

  /** What stands in a record behind its front. */
  function RecordBody(e: Entry): Bytes { EncodeStr(e.key) + EncodeValue(e.value, e.args) + [254] }

  lemma ReadBodyEncoded(s: Bytes, front: Front, e: Entry, rest: Bytes, db: Db, now: nat)
    requires Loadable(e.value) && InOrder(e) && EntrySized(e) && e.key !in db
    requires ReadFront(s) == front && front.Front? && front.kind == TypeOf(e.value) && front.rest == RecordBody(e) + rest
    ensures var keep := !front.expires || front.when > now;
            ReadRecord(s, db, now) == Loaded(if keep then db[e.key := e.value] else db, rest, true)
  {
    hide ReadFront, ReadStr, ReadValue, EncodeStr, EncodeValue, Loadable, InOrder;
    var end := [254] + rest;
    var body := EncodeValue(e.value, e.args) + end;
    assert RecordBody(e) + rest == EncodeStr(e.key) + body;
    ReadStrEncoded(e.key, body);
    ReadValueEncoded(e, end, !front.expires || front.when > now);
    assert end[1..] == rest && db - {e.key} == db;
  }

  lemma ReadRecordEncoded(e: Entry, rest: Bytes, db: Db, now: nat)
    requires Loadable(e.value) && InOrder(e) && EntrySized(e) && e.key !in db
    ensures ReadRecord(EncodeEntry(e.key, e.value, e.args) + rest, db, now) == Loaded(db[e.key := e.value], rest, true)
  {
    hide ReadRecord, EncodeStr, EncodeValue, Loadable, InOrder;
    var s := EncodeEntry(e.key, e.value, e.args) + rest;
    assert s == [255, TypeOf(e.value), 0] + (RecordBody(e) + rest);
    assert s[3..] == RecordBody(e) + rest;
    ReadBodyEncoded(s, ReadFront(s), e, rest, db, now);
  }

  // ----- The layout byte by byte -----

  /** A record of the writer: flag, type, no expiry; key and value; end flag. */
  lemma RecordLayout(e: Entry)
    ensures EncodeEntry(e.key, e.value, e.args) ==
      [255, match e.value case Int(_) => 1 case Str(_) => 2 case List(_) => 3 case Dict(_) => 4 case Set(_) => 5, 0]
      + (Encode(|e.key|) + e.key)
      + (match e.value
         case Int(n) => Encode(if n < 0 then n + 0x1_0000_0000_0000_0000 else n)
         case Str(s) => Encode(|s|) + s
         case List(items) => if items == [] then [] else Encode(|items|) + EncodeStrs(items)
         case Dict(m) => if |m| == 0 then [] else Encode(|m|) + EncodeStrs(e.args)
         case Set(x) => if |x| == 0 then [] else Encode(|x|) + EncodeStrs(e.args))
      + [254]
  {
    hide Encode, EncodeStrs;
  }

  /** A length that runs past the end is read, and no byte behind it. */
  lemma LengthPastEnd(n: UInt64, rest: Bytes)
    requires |rest| < n
    ensures ReadStr(Encode(n) + rest) == Got([], rest)
  {
    hide Encode, ReadInt;
    ReadIntEncoded(n, rest);
  }

  /** The file: the letters LITEKV, the digits 0001, the number of records in eight bytes, least
      significant first, and the records. */
  lemma FileLayout(es: seq<Entry>, i: nat)
    requires i < 8
    ensures |File(es)| >= 18 && File(es)[..10] == [76, 73, 84, 69, 75, 86, 48, 48, 48, 49]
    ensures Pow256(i) > 0 && File(es)[10 + i] == |es| / Pow256(i) % 256
    ensures File(es)[18..] == EncodeEntries(es)
  {
    hide Fixed, EncodeEntries, Pow256;
    FixedAt(|es|, 8, i);
    var file := File(es);
    assert file[10 + i] == Fixed(|es|, 8)[i];
    assert file[18..] == EncodeEntries(es);
    assert file[..10] == HEADER;
  }

  /** A file that does not start with the letters LITEKV is not read. */
  lemma OtherFile(file: Bytes, db: Db, now: nat)
    requires |file| < 18 || file[..6] != [76, 73, 84, 69, 75, 86]
    ensures Load(file, db, now).db == db && !Load(file, db, now).fine
  {
    assert HEADER[..6] == [76, 73, 84, 69, 75, 86];
  }

  /** A record with an expiry, given in milliseconds in eight bytes behind a flag that is not 0, is
      taken exactly if that time lies after `now`; either way it is read to its end. */
  lemma ExpiringRecord(e: Entry, flag: byte, when: UInt64, rest: Bytes, db: Db, now: nat)
    requires Loadable(e.value) && InOrder(e) && EntrySized(e) && e.key !in db && flag != 0
    ensures ReadRecord([255, TypeOf(e.value), flag] + Fixed(when, 8) + RecordBody(e) + rest, db, now) ==
            Loaded(if when > now then db[e.key := e.value] else db, rest, true)
  {
    hide ReadRecord, RecordBody, Loadable, InOrder, Fixed, FromFixed, EntrySized;
    var time, body := Fixed(when, 8), RecordBody(e) + rest;
    var s := [255, TypeOf(e.value), flag] + time + RecordBody(e) + rest;
    assert s == [255, TypeOf(e.value), flag] + (time + body);
    Fixed64RoundTrip(when, body);
    assert s[3..11] == (time + body)[..8] && s[11..] == body;
    ReadBodyEncoded(s, ReadFront(s), e, rest, db, now);
  }

  /** The store that a list of entries builds. */
  function Built(es: seq<Entry>): Db {
    if es == [] then map[] else Built(es[..|es| - 1])[es[|es| - 1].key := es[|es| - 1].value]
  }

  lemma {:induction false} BuiltHas(es: seq<Entry>, k: Bytes)
    ensures k in Built(es) <==> exists i :: 0 <= i < |es| && es[i].key == k
  {
    if es != [] {
      var init := es[..|es| - 1];
      BuiltHas(init, k);
      if k in Built(init) {
        var i :| 0 <= i < |init| && init[i].key == k;
        assert es[i].key == k;
      }
      if exists i :: 0 <= i < |es| && es[i].key == k {
        var i :| 0 <= i < |es| && es[i].key == k;
        if i < |init| { assert init[i].key == k; }
      }
    }
  }

  lemma {:induction false} BuiltIs(es: seq<Entry>, db: Db, k: Bytes)
    requires k in Built(es) && forall i :: 0 <= i < |es| ==> es[i].key in db && db[es[i].key] == es[i].value
    ensures k in db && Built(es)[k] == db[k]
  {
    if k != es[|es| - 1].key { BuiltIs(es[..|es| - 1], db, k); }
  }

  lemma ListsBuild(es: seq<Entry>, db: Db)
    requires Lists(es, db)
    ensures Built(es) == db
  {
    hide InOrder;
    forall k ensures k in Built(es) <==> k in db { BuiltHas(es, k); }
    forall k | k in db ensures Built(es)[k] == db[k] { BuiltIs(es, db, k); }
  }

  ghost predicate Readable(es: seq<Entry>) {
    && (forall i, j :: 0 <= i < j < |es| ==> es[i].key != es[j].key)
    && (forall i :: 0 <= i < |es| ==> Loadable(es[i].value) && InOrder(es[i]) && EntrySized(es[i]))
  }

  lemma {:induction false} ReadRecordsEncoded(es: seq<Entry>, n: nat, rest: Bytes, now: nat)
    requires n <= |es| && Readable(es)
    ensures ReadRecords(EncodeEntries(es[n..]) + rest, |es| - n, Built(es[..n]), now) == Loaded(Built(es), rest, true)
    decreases |es| - n
  {
    hide ReadRecord, EncodeEntry, Loadable, InOrder, EntrySized;
    if n == |es| {
      assert es[..n] == es && [] + rest == rest;
    } else {
      var e := es[n];
      var more := EncodeEntries(es[n + 1..]) + rest;
      assert es[n..][1..] == es[n + 1..];
      assert EncodeEntries(es[n..]) + rest == EncodeEntry(e.key, e.value, e.args) + more;
      BuiltHas(es[..n], e.key);
      ReadRecordEncoded(e, more, Built(es[..n]), now);
      assert es[..n + 1][..n] == es[..n];
      ReadRecordsEncoded(es, n + 1, rest, now);
    }
  }

  /** Loading a written file gives back the store and uses up every byte. */
  lemma FileRoundTrip(es: seq<Entry>, db: Db, now: nat)
    requires Lists(es, db) && AllLoadable(db) && |es| < 0x1_0000_0000_0000_0000
    requires forall i :: 0 <= i < |es| ==> EntrySized(es[i])
    ensures Load(File(es), map[], now) == Loaded(db, [], true)
  {
    hide ReadRecords, EncodeEntries, Loadable, InOrder, EntrySized, Fixed, FromFixed, Built;
    var body := EncodeEntries(es);
    var file := File(es);
    assert file[..6] == HEADER[..6];
    assert file[18..] == body;
    assert file[10..18] == (Fixed(|es|, 8) + body)[..8];
    Fixed64RoundTrip(|es|, body);
    assert Readable(es);
    ReadRecordsEncoded(es, 0, [], now);
    assert es[0..] == es && body + [] == body;
    NothingBuilt(es);
    ListsBuild(es, db);
  }

  lemma NothingBuilt(es: seq<Entry>)
    ensures Built(es[..0]) == map[]
  {
  }

  // ----- What a load can build -----

  lemma {:induction false} ReadItemsNonEmpty(s: Bytes, count: nat, got: seq<Bytes>)
    requires NoEmpty(got)
    ensures NoEmpty(ReadItems(s, count, got).value)
    decreases |s|
  {
    hide ReadStr;
    if count > 0 {
      var e := ReadStr(s);
      if e.value != [] { ReadItemsNonEmpty(e.rest, count - 1, got + [e.value]); }
    }
  }

  lemma {:induction false} ReadPairsNonEmpty(s: Bytes, count: nat, got: map<Bytes, Bytes>)
    requires NoEmptyField(got)
    ensures NoEmptyField(ReadPairs(s, count, got).value)
    decreases |s|
  {
    hide ReadStr;
    if count > 0 {
      var k := ReadStr(s);
      if k.value != [] {
        var v := ReadStr(k.rest);
        if v.value != [] { ReadPairsNonEmpty(v.rest, count - 1, got[k.value := v.value]); }
      }
    }
  }

  lemma PushLoadable(v: Option<Value>, items: seq<Bytes>)
    requires (v.Some? ==> Loadable(v.value)) && NoEmpty(items)
    ensures var r := PushItems(v, items); r.Some? ==> Loadable(r.value)
  {
    PushRight([], items);
    if v.Some? && v.value.List? { PushRight(v.value.items, items); }
    hide PushAll;
  }

  lemma JoinLoadable(v: Option<Value>, items: seq<Bytes>)
    requires (v.Some? ==> Loadable(v.value)) && NoEmpty(items)
    ensures var r := Join(v, Range(items)); r.Some? ==> Loadable(r.value)
  {
    assert [] !in Range(items);
    if v.Some? && v.value.Set? {
      var y :| y in v.value.members;
      assert y in v.value.members + Range(items);
    }
  }

  lemma MergeLoadable(v: Option<Value>, m: map<Bytes, Bytes>)
    requires (v.Some? ==> Loadable(v.value)) && NoEmptyField(m)
    ensures var r := Merge(v, m); r.Some? ==> Loadable(r.value)
  {
    if v.Some? && v.value.Dict? {
      var k :| k in v.value.fields;
      assert k in v.value.fields + m;
    }
  }

  lemma ReadValueLoadable(s: Bytes, kind: byte, v: Option<Value>, keep: bool)
    requires 1 <= kind <= 5 && (v.Some? ==> Loadable(v.value))
    ensures var r := ReadValue(s, kind, v, keep).value; r.Some? ==> Loadable(r.value)
  {
    hide ReadItems, ReadPairs, ReadInt, PushItems, Join, Merge;
    var n := ReadInt(s);
    ReadItemsNonEmpty(n.rest, n.value, []);
    ReadPairsNonEmpty(n.rest, n.value, map[]);
    PushLoadable(v, ReadList(s).value);
    JoinLoadable(v, ReadList(s).value);
    MergeLoadable(v, ReadDict(s).value);
  }

  lemma {:induction false} LoadedIsLoadable(s: Bytes, n: nat, db: Db, now: nat)
    requires AllLoadable(db)
    ensures AllLoadable(ReadRecords(s, n, db, now).db)
    decreases n
  {
    hide Loadable, ReadValue, ReadFront, ReadStr;
    if n > 0 {
      var r := ReadRecord(s, db, now);
      var f := ReadFront(s);
      if f.Front? {
        var key := ReadStr(f.rest);
        ReadValueLoadable(key.rest, f.kind, Look(db, key.value), !f.expires || f.when > now);
      }
      assert AllLoadable(r.db);
      if r.fine { LoadedIsLoadable(r.rest, n - 1, r.db, now); }
    }
  }

  /** A store comes back from its snapshot exactly when its collections are not empty and hold no
      empty string. */
  lemma SnapshotRoundTripIff(es: seq<Entry>, db: Db, now: nat)
    requires Lists(es, db) && |es| < 0x1_0000_0000_0000_0000 && forall i :: 0 <= i < |es| ==> EntrySized(es[i])
    ensures Load(File(es), map[], now).db == db <==> AllLoadable(db)
    ensures AllLoadable(db) ==> Load(File(es), map[], now) == Loaded(db, [], true)
  {
    hide Loadable, ReadRecords, EncodeEntries, Lists, EntrySized;
    if AllLoadable(db) {
      FileRoundTrip(es, db, now);
    } else {
      AnyLoadIsLoadable(File(es), now);
    }
  }

  lemma AnyLoadIsLoadable(file: Bytes, now: nat)
    ensures AllLoadable(Load(file, map[], now).db)
  {
    hide Loadable, ReadRecords;
    if |file| >= 18 { LoadedIsLoadable(file[18..], FromFixed(file[10..18]), map[], now); }
  }

  // ----- Two stores that do not come back -----

  lemma OneEntry(key: Bytes, v: Value, args: seq<Bytes>, now: nat)
    requires var e := Entry(key, v, args); InOrder(e) && EntrySized(e) && !Loadable(v)
    ensures var es := [Entry(key, v, args)]; Lists(es, map[key := v]) && Load(File(es), map[], now).db != map[key := v]
  {
    hide InOrder, EntrySized, Loadable, Load, File;
    var es := [Entry(key, v, args)];
    assert es[0].key == key;
    assert !AllLoadable(map[key := v]) by { assert key in map[key := v]; }
    SnapshotRoundTripIff(es, map[key := v], now);
  }

  /** Pushing an element and popping it leaves an empty list, which a snapshot loses. */
  lemma EmptiedListIsLost(key: Bytes, x: Bytes, op: Op, now: nat)
    requires NulFree(key) && Sized(key) && (op.LPopOp? || op.RPopOp?)
    ensures var db, es := Run([Cmd(RPushOp, key, [x]), Cmd(op, key, [])]).db, [Entry(key, List([]), [])];
            db == map[key := List([])] && Lists(es, db) && Load(File(es), map[], now).db != db
  {
    hide Run, Cmd, Load, File, Lists;
    var push, pop := Cmd(RPushOp, key, [x]), Cmd(op, key, []);
    RunTwo(push, pop);
    PushStep(EMPTY, key, x);
    PopStep(Step(EMPTY, push), key, x, op);
    OneEntry(key, List([]), [], now);
  }

  /** So does a set into which an empty string was put. */
  lemma EmptyMemberIsLost(key: Bytes, now: nat)
    requires NulFree(key) && Sized(key)
    ensures var db, es := Run([Cmd(SAddOp, key, [[]])]).db, [Entry(key, Set({[]}), [[]])];
            db == map[key := Set({[]})] && Lists(es, db) && Load(File(es), map[], now).db != db
  {
    hide Run, Cmd, Load, File, Lists;
    var args: seq<Bytes> := [[]];
    assert args[0] in Range(args);
    assert Range(args) == {[]};
    RunOne(Cmd(SAddOp, key, args));
    HandleCmd(SAddOp, key, args, map[]);
    OneEntry(key, Set({[]}), args, now);
  }

  lemma RunOne(c: Argv)
    ensures Run([c]) == Step(EMPTY, c)
  {
    RunSnoc([], c);
    assert [] + [c] == [c];
  }

  lemma RunTwo(c: Argv, d: Argv)
    ensures Run([c, d]) == Step(Step(EMPTY, c), d)
  {
    RunOne(c);
    RunSnoc([c], d);
    assert [c] + [d] == [c, d];
  }

  lemma PopStep(s: State, key: Bytes, x: Bytes, op: Op)
    requires NulFree(key) && Look(s.db, key) == Some(List([x])) && (op.LPopOp? || op.RPopOp?)
    ensures Step(s, Cmd(op, key, [])).db == s.db[key := List([])]
  {
    hide Handle, Cmd;
    HandleCmd(op, key, [], s.db);
    assert [x][1..] == [] && [x][..0] == [];
  }
}
