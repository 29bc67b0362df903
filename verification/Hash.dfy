/** Chained tables as values: a table is a sequence of chains, and stands for a map. */
module Chains {
  import opened ByteStrings

  datatype Entry<V> = Entry(key: Bytes, value: V)

  type Chain<V> = seq<Entry<V>>

  function Slot(key: Bytes, slots: nat): (i: nat)
    requires slots > 0
    ensures i < slots
  {
    Hash(key) % slots
  }

  ghost predicate Holds<V>(chain: Chain<V>, key: Bytes) {
    exists j :: 0 <= j < |chain| && chain[j].key == key
  }

  ghost predicate DistinctKeys<V>(chain: Chain<V>) {
    forall j, k :: 0 <= j < k < |chain| ==> chain[j].key != chain[k].key
  }

  /** Entry `e` is where it belongs and agrees with the map. */
  ghost predicate Placed<V>(e: Entry<V>, i: nat, slots: nat, m: map<Bytes, V>) {
    slots > 0 && Slot(e.key, slots) == i && e.key in m && m[e.key] == e.value
  }

  /** The table holds exactly the bindings of `m`, each once, each in its slot. */
  ghost predicate Table<V>(t: seq<Chain<V>>, m: map<Bytes, V>) {
    && |t| > 0
    && (forall i, j :: 0 <= i < |t| && 0 <= j < |t[i]| ==> Placed(t[i][j], i, |t|, m))
    && (forall i :: 0 <= i < |t| ==> DistinctKeys(t[i]))
    && (forall k :: k in m ==> Holds(t[Slot(k, |t|)], k))
  }

  /** A chain of the table holds a key iff the key is bound and belongs there. */
  lemma ChainHolds<V>(t: seq<Chain<V>>, m: map<Bytes, V>, key: Bytes)
    requires Table(t, m)
    ensures Holds(t[Slot(key, |t|)], key) <==> key in m
  {
  }

  lemma EmptyTable<V>(t: seq<Chain<V>>)
    requires |t| > 0 && forall i :: 0 <= i < |t| ==> t[i] == []
    ensures Table(t, map[])
  {
  }

  lemma PushFront<V>(t: seq<Chain<V>>, m: map<Bytes, V>, e: Entry<V>)
    requires Table(t, m) && e.key !in m
    ensures var s := Slot(e.key, |t|); Table(t[s := [e] + t[s]], m[e.key := e.value])
    ensures |m[e.key := e.value]| == |m| + 1
  {
    var s := Slot(e.key, |t|);
    var c := [e] + t[s];
    var t', m' := t[s := c], m[e.key := e.value];
    assert c[0] == e && forall j :: 1 <= j < |c| ==> c[j] == t[s][j - 1];
    assert DistinctKeys(c) by {
      forall j | 0 <= j < |t[s]| ensures t[s][j].key != e.key { assert Placed(t[s][j], s, |t|, m); }
    }
    forall i, j | 0 <= i < |t'| && 0 <= j < |t'[i]| ensures Placed(t'[i][j], i, |t'|, m') {
      assert i == s && j > 0 ==> t'[i][j] == t[s][j - 1];
      assert i == s && j > 0 ==> Placed(t[s][j - 1], s, |t|, m);
      assert i != s ==> Placed(t[i][j], i, |t|, m);
    }
    forall k | k in m' ensures Holds(t'[Slot(k, |t'|)], k) {
      if k != e.key && Slot(k, |t|) == s {
        var j :| 0 <= j < |t[s]| && t[s][j].key == k;
        assert c[j + 1].key == k;
      } else if k == e.key {
        assert c[0].key == k;
      }
    }
  }

  lemma SetValue<V>(t: seq<Chain<V>>, m: map<Bytes, V>, s: nat, j: nat, v: V)
    requires Table(t, m) && s < |t| && j < |t[s]|
    ensures var e := Entry(t[s][j].key, v); Table(t[s := t[s][j := e]], m[e.key := v])
    ensures t[s][j].key in m && |m[t[s][j].key := v]| == |m|
  {
    var e := Entry(t[s][j].key, v);
    assert Placed(t[s][j], s, |t|, m);
    var c := t[s][j := e];
    var t', m' := t[s := c], m[e.key := v];
    assert m'.Keys == m.Keys;
    forall i, k | 0 <= i < |t'| && 0 <= k < |t'[i]| ensures Placed(t'[i][k], i, |t'|, m') {
      assert Placed(t[i][k], i, |t|, m);
      assert i == s && k != j ==> t[s][k].key != e.key;
    }
    forall k | k in m' ensures Holds(t'[Slot(k, |t'|)], k) {
      var n :| 0 <= n < |t[Slot(k, |t|)]| && t[Slot(k, |t|)][n].key == k;
      assert t'[Slot(k, |t'|)][n].key == k;
    }
  }

  function Without<T>(c: seq<T>, j: nat): seq<T>
    requires j < |c|
  {
    c[..j] + c[j + 1..]
  }

  lemma WithoutAt<V>(c: Chain<V>, j: nat)
    requires j < |c| && DistinctKeys(c)
    ensures DistinctKeys(Without(c, j))
    ensures forall k :: 0 <= k < |c| - 1 ==> Without(c, j)[k] == c[if k < j then k else k + 1]
    ensures forall key :: key != c[j].key && Holds(c, key) ==> Holds(Without(c, j), key)
  {
    var d := Without(c, j);
    forall key | key != c[j].key && Holds(c, key) ensures Holds(d, key) {
      var n :| 0 <= n < |c| && c[n].key == key;
      assert d[if n < j then n else n - 1].key == key;
    }
  }

  lemma DropEntry<V>(t: seq<Chain<V>>, m: map<Bytes, V>, s: nat, j: nat, t': seq<Chain<V>>, m': map<Bytes, V>)
    requires Table(t, m) && s < |t| && j < |t[s]|
    requires t' == t[s := Without(t[s], j)] && m' == m - {t[s][j].key}
    ensures Table(t', m')
    ensures t[s][j].key in m && |m'| == |m| - 1
  {
    var key := t[s][j].key;
    assert Placed(t[s][j], s, |t|, m);
    assert m == m'[key := m[key]];
    WithoutAt(t[s], j);
    forall i, k | 0 <= i < |t'| && 0 <= k < |t'[i]| ensures Placed(t'[i][k], i, |t'|, m') {
      var k0 := if i == s && k >= j then k + 1 else k;
      assert t'[i][k] == t[i][k0] && Placed(t[i][k0], i, |t|, m);
    }
  }

  /** `es` lists the bindings of `m`, each exactly once. */
  ghost predicate Lists<V>(es: seq<Entry<V>>, m: map<Bytes, V>) {
    && DistinctKeys(es)
    && (forall j :: 0 <= j < |es| ==> es[j].key in m && m[es[j].key] == es[j].value)
    && (forall k :: k in m ==> Holds(es, k))
  }

  /** The entries of the first `n` chains, in order. */
  function Flat<V>(t: seq<Chain<V>>, n: nat): seq<Entry<V>>
    requires n <= |t|
  {
    if n == 0 then [] else Flat(t, n - 1) + t[n - 1]
  }

  lemma {:induction false} FlatPlaced<V>(t: seq<Chain<V>>, m: map<Bytes, V>, n: nat)
    requires Table(t, m) && n <= |t|
    ensures DistinctKeys(Flat(t, n))
    ensures forall j :: 0 <= j < |Flat(t, n)| ==>
      var e := Flat(t, n)[j]; e.key in m && m[e.key] == e.value && Slot(e.key, |t|) < n
  {
    if n > 0 {
      FlatPlaced(t, m, n - 1);
      var c := t[n - 1];
      forall j | 0 <= j < |c| ensures c[j].key in m && m[c[j].key] == c[j].value && Slot(c[j].key, |t|) == n - 1 {
        assert Placed(t[n - 1][j], n - 1, |t|, m);
      }
      assert DistinctKeys(c);
    }
  }

  lemma {:induction false} FlatHolds<V>(t: seq<Chain<V>>, key: Bytes, i: nat, n: nat)
    requires i < n <= |t| && Holds(t[i], key)
    ensures Holds(Flat(t, n), key)
  {
    var before, c := Flat(t, n - 1), t[n - 1];
    if i == n - 1 {
      var j :| 0 <= j < |c| && c[j].key == key;
      assert Flat(t, n)[|before| + j].key == key;
    } else {
      FlatHolds(t, key, i, n - 1);
      var j :| 0 <= j < |before| && before[j].key == key;
      assert Flat(t, n)[j].key == key;
    }
  }

  /** Walking a table slot by slot lists its map. */
  lemma FlatLists<V>(t: seq<Chain<V>>, m: map<Bytes, V>)
    requires Table(t, m)
    ensures Lists(Flat(t, |t|), m)
  {
    FlatPlaced(t, m, |t|);
    forall k | k in m ensures Holds(Flat(t, |t|), k) {
      FlatHolds(t, k, Slot(k, |t|), |t|);
    }
  }

  lemma {:induction false} ListsSize<V>(es: seq<Entry<V>>, m: map<Bytes, V>)
    requires Lists(es, m)
    ensures |es| == |m|
  {
    if es == [] {
      assert forall k :: k in m ==> Holds(es, k);
      assert m == map[];
    } else {
      var n := |es| - 1;
      var rest, m' := es[..n], m - {es[n].key};
      assert m == m'[es[n].key := m[es[n].key]];
      forall k | k in m' ensures Holds(rest, k) {
        var j :| 0 <= j < |es| && es[j].key == k;
        assert rest[j].key == k;
      }
      ListsSize(rest, m');
    }
  }
}

/** One table: `HashStructBase` with the operations of `HashTable` and `HashSetImpl`. */
module HashStructs {
  import opened ByteStrings
  import opened Chains

  datatype Status = NewAdded | Updated | Existed

  class HashStruct<V(0)> {
    const table: array<Chain<V>>
    var count: nat
    /** Next slot to be moved, -1 when no rehash is under way. */
    var rehashingIdx: int
    ghost var contents: map<Bytes, V>

    ghost predicate Valid()
      reads this, table
    {
      Table(table[..], contents) && count == |contents| && -1 <= rehashingIdx < table.Length
    }

    constructor (slots: nat)
      requires slots > 0
      ensures Valid() && fresh(table) && table.Length == slots && rehashingIdx == -1 && contents == map[]
    {
      table := new Chain<V>[slots](_ => []);
      count, rehashingIdx, contents := 0, -1, map[];
      new;
      EmptyTable(table[..]);
    }

    /** Position of the key in its chain, -1 for the null pointer. */
    method FindEntry(key: Bytes) returns (s: nat, j: int)
      requires Valid()
      ensures s == Slot(key, table.Length)
      ensures -1 <= j < |table[s]| && (j >= 0 <==> key in contents)
      ensures j >= 0 ==> table[s][j].key == key && table[s][j].value == contents[key]
    {
      s := Slot(key, table.Length);
      ChainHolds(table[..], contents, key);
      j := 0;
      while j < |table[s]|
        invariant 0 <= j <= |table[s]| && forall k :: 0 <= k < j ==> table[s][k].key != key
      {
        if table[s][j].key == key {
          assert Placed(table[..][s][j], s, table.Length, contents);
          return;
        }
        j := j + 1;
      }
      j := -1;
    }

    /** The entry was put in front of its chain, and nothing else moved. */
    twostate predicate AtHead(e: Entry<V>)
      requires table.Length > 0
      reads table
    {
      var s := Slot(e.key, table.Length);
      table[..] == old(table[..])[s := [e] + old(table[..])[s]]
    }

    method Push(e: Entry<V>)
      requires Valid() && e.key !in contents
      modifies this, table
      ensures Valid() && contents == old(contents)[e.key := e.value] && rehashingIdx == old(rehashingIdx)
      ensures AtHead(e)
    {
      var s := Slot(e.key, table.Length);
      PushFront(table[..], contents, e);
      table[s] := [e] + table[s];
      assert table[..] == old(table[..])[s := [e] + old(table[s])];
      count, contents := count + 1, contents[e.key := e.value];
    }

    method Reset(s: nat, j: nat, v: V)
      requires Valid() && s < table.Length && j < |table[s]|
      modifies this, table
      ensures Valid() && contents == old(contents)[old(table[s][j].key) := v] && rehashingIdx == old(rehashingIdx)
      ensures old(table[s][j].key) in old(contents)
      ensures forall i :: 0 <= i < table.Length ==> |table[i]| == |old(table[i])|
    {
      SetValue(table[..], contents, s, j, v);
      ghost var key := table[s][j].key;
      table[s] := table[s][j := Entry(table[s][j].key, v)];
      assert table[..] == old(table[..])[s := old(table[s])[j := Entry(key, v)]];
      contents := contents[key := v];
    }

    /** `UpdateKV` and `AddEntry` of the dictionary table. */
    method UpdateKV(key: Bytes, v: V) returns (status: Status)
      requires Valid()
      modifies this, table
      ensures Valid() && contents == old(contents)[key := v] && rehashingIdx == old(rehashingIdx)
      ensures status == if key in old(contents) then Updated else NewAdded
      ensures status == NewAdded ==> AtHead(Entry(key, v))
    {
      var s, j := FindEntry(key);
      if j < 0 {
        Push(Entry(key, v));
        status := NewAdded;
      } else {
        Reset(s, j, v);
        status := Updated;
      }
    }

    /** `Add` and `AddEntry` of the set table: an existing item stays as it is. */
    method Add(key: Bytes, v: V) returns (status: Status)
      requires Valid()
      modifies this, table
      ensures Valid() && rehashingIdx == old(rehashingIdx)
      ensures contents == if key in old(contents) then old(contents) else old(contents)[key := v]
      ensures status == if key in old(contents) then Existed else NewAdded
      ensures status == NewAdded ==> AtHead(Entry(key, v))
      ensures status == Existed ==> table[..] == old(table[..])
    {
      var s, j := FindEntry(key);
      if j < 0 {
        Push(Entry(key, v));
        status := NewAdded;
      } else {
        status := Existed;
      }
    }

    method Unlink(s: nat, j: nat)
      requires Valid() && s < table.Length && j < |table[s]|
      modifies this, table
      ensures Valid() && rehashingIdx == old(rehashingIdx)
      ensures old(table[s][j].key) in old(contents) && contents == old(contents) - {old(table[s][j].key)}
      ensures count == old(count) - 1
      ensures forall i :: 0 <= i < table.Length && i != s ==> table[i] == old(table[i])
    {
      ghost var t, m, key := table[..], contents, table[s][j].key;
      table[s] := Without(table[s], j);
      contents := contents - {key};
      DropEntry(t, m, s, j, table[..], contents);
      count := count - 1;
    }

    method EraseKey(key: Bytes) returns (erased: bool)
      requires Valid()
      modifies this, table
      ensures Valid() && contents == old(contents) - {key} && rehashingIdx == old(rehashingIdx)
      ensures erased == (key in old(contents)) && count <= old(count) && (!erased ==> contents == old(contents))
      ensures forall i :: 0 <= i < table.Length && old(table[i]) == [] ==> table[i] == []
    {
      var s, j := FindEntry(key);
      erased := j >= 0;
      if erased {
        Unlink(s, j);
      } else {
        assert contents == contents - {key};
      }
    }

    method StepRehashingIdx()
      requires Valid()
      modifies this`rehashingIdx
      ensures Valid()
      ensures rehashingIdx == -1 ==> forall i :: old(rehashingIdx) < i < table.Length ==> table[i] == []
      ensures rehashingIdx != -1 ==> old(rehashingIdx) < rehashingIdx && table[rehashingIdx] != []
      ensures forall i :: old(rehashingIdx) < i < rehashingIdx ==> table[i] == []
    {
      var i := rehashingIdx + 1;
      while i < table.Length
        invariant rehashingIdx == old(rehashingIdx)
        invariant rehashingIdx < i <= table.Length && forall k :: rehashingIdx < k < i ==> table[k] == []
      {
        if table[i] != [] {
          rehashingIdx := i;
          return;
        }
        i := i + 1;
      }
      rehashingIdx := -1;
    }

    method EnsureAllSlotsEmpty() returns (empty: bool)
      ensures empty <==> forall i :: 0 <= i < table.Length ==> table[i] == []
    {
      for i := 0 to table.Length
        invariant forall k :: 0 <= k < i ==> table[k] == []
      {
        if table[i] != [] { return false; }
      }
      return true;
    }

    /** All entries, slot by slot. */
    method AllEntries() returns (es: seq<Entry<V>>)
      requires Valid()
      ensures Lists(es, contents)
    {
      es := [];
      if count != 0 {
        for i := 0 to table.Length
          invariant es == Flat(table[..], i)
        {
          es := es + table[i];
        }
        FlatLists(table[..], contents);
      }
    }
  }
}

/** Incremental rehashing: `Rehashable` with the operations of `HashDict` and `HashSet`. */
module Rehashables {
  import opened Wrappers
  import opened ByteStrings
  import opened Chains
  import opened HashStructs

  const INITIAL_SLOTS: nat := 16
  const GROW_FACTOR: nat := 2

  predicate Overloaded(count: nat, slots: nat, maxLoad: real)
    requires slots > 0
  {
    count as real / slots as real > maxLoad
  }

  /** The quotient test without the quotient. */
  lemma LoadIs(count: nat, slots: nat, maxLoad: real)
    requires slots > 0
    ensures Overloaded(count, slots, maxLoad) <==> count as real > maxLoad * slots as real
  {
    var q := count as real / slots as real;
    assert q * slots as real == count as real;
    Scaled(q, maxLoad, slots as real);
  }

  lemma Scaled(q: real, m: real, s: real)
    requires s > 0.0
    ensures q > m <==> q * s > m * s
  {
    if q > m { assert (q - m) * s > 0.0; } else { assert (m - q) * s >= 0.0; }
  }

  /** At the default load factor the quotient test is an integer comparison. */
  lemma DefaultLoad(count: nat, slots: nat)
    requires slots > 0
    ensures Overloaded(count, slots, 1.0) <==> count > slots
  {
    var q := count as real / slots as real;
    assert q * slots as real == count as real;
    if q > 1.0 {
      assert q * slots as real > 1.0 * slots as real;
    } else {
      assert q * slots as real <= 1.0 * slots as real;
    }
  }

  lemma UnionSize<V>(a: map<Bytes, V>, b: map<Bytes, V>)
    requires a.Keys !! b.Keys
    ensures |a + b| == |a| + |b|
  {
    assert (a + b).Keys == a.Keys + b.Keys;
  }

  lemma UnionPut<V>(a: map<Bytes, V>, b: map<Bytes, V>, k: Bytes, v: V)
    ensures a + b[k := v] == (a + b)[k := v]
    ensures k !in b ==> a[k := v] + b == (a + b)[k := v]
  {
  }

  lemma UnionDrop<V>(a: map<Bytes, V>, b: map<Bytes, V>, k: Bytes)
    ensures k !in a ==> a + (b - {k}) == (a + b) - {k}
    ensures k !in b ==> (a - {k}) + b == (a + b) - {k}
  {
  }

  lemma DropHead<V>(t: seq<Chain<V>>, now: seq<Chain<V>>, s: nat, m: map<Bytes, V>)
    requires Table(now, m) && s < |now| && now[s] != [] && t == now[s := now[s][1..]]
    ensures now[s][0].key in m && m[now[s][0].key] == now[s][0].value
    ensures |m - {now[s][0].key}| == |m| - 1 && Table(t, m - {now[s][0].key})
  {
    assert Placed(now[s][0], s, |now|, m);
    assert Without(now[s], 0) == now[s][1..];
    DropEntry(now, m, s, 0, t, m - {now[s][0].key});
  }

  /** A binding that changes tables is neither lost nor doubled. */
  lemma MoveBinding<V>(m: map<Bytes, V>, b: map<Bytes, V>, k: Bytes)
    requires m.Keys !! b.Keys && k in m
    ensures (m - {k}).Keys !! b[k := m[k]].Keys && (m - {k}) + b[k := m[k]] == m + b
  {
  }

  /** Every slot before `idx` is empty; at -1 the whole table is. */
  ghost predicate Drained<V>(t: seq<Chain<V>>, idx: int) {
    && -1 <= idx < |t|
    && (forall i :: 0 <= i < (if idx == -1 then |t| else idx) ==> t[i] == [])
  }

  lemma AllEmpty<V>(t: seq<Chain<V>>, m: map<Bytes, V>)
    requires Table(t, m) && forall i :: 0 <= i < |t| ==> t[i] == []
    ensures m == map[]
  {
    assert forall k :: k in m ==> Holds(t[Slot(k, |t|)], k);
  }

  lemma ListsUnion<V>(es: seq<Entry<V>>, m: map<Bytes, V>, fs: seq<Entry<V>>, n: map<Bytes, V>)
    requires Lists(es, m) && Lists(fs, n) && m.Keys !! n.Keys
    ensures Lists(es + fs, m + n)
  {
    var all := es + fs;
    forall k | k in m + n ensures Holds(all, k) {
      if k in n {
        var j :| 0 <= j < |fs| && fs[j].key == k;
        assert all[|es| + j].key == k;
      } else {
        var j :| 0 <= j < |es| && es[j].key == k;
        assert all[j].key == k;
      }
    }
  }

  /** One round of the loop of `PerformRehash`; `now` is the table with the chain still in place. */
  method MoveEntry<V(0)>(from: HashStruct<V>, to: HashStruct<V>, head: Entry<V>, ghost now: seq<Chain<V>>, ghost rest: seq<Chain<V>>, ghost s: nat)
    requires Table(now, from.contents) && s < |now| && now[s] != [] && now[s][0] == head
    requires rest == now[s := now[s][1..]]
    requires from.count == |from.contents| && to.Valid() && from != to && from.contents.Keys !! to.contents.Keys
    modifies from`count, from`contents, to, to.table
    ensures Table(rest, from.contents) && from.count == |from.contents|
    ensures to.Valid() && to.rehashingIdx == old(to.rehashingIdx) && from.contents.Keys !! to.contents.Keys
    ensures from.contents + to.contents == old(from.contents + to.contents)
  {
    DropHead(rest, now, s, from.contents);
    MoveBinding(from.contents, to.contents, head.key);
    from.count := from.count - 1;
    from.contents := from.contents - {head.key};
    var _ := to.UpdateKV(head.key, head.value);
  }

  /** The loop of `PerformRehash` over a chain already disconnected from its slot. */
  method MoveChain<V(0)>(from: HashStruct<V>, to: HashStruct<V>, first: Chain<V>, ghost full: seq<Chain<V>>, ghost s: nat)
    requires s < |full| && full[s] == first && Table(full, from.contents) && from.count == |from.contents|
    requires to.Valid() && from != to && from.contents.Keys !! to.contents.Keys
    modifies from`count, from`contents, to, to.table
    ensures Table(full[s := []], from.contents) && from.count == |from.contents|
    ensures to.Valid() && to.rehashingIdx == old(to.rehashingIdx) && from.contents.Keys !! to.contents.Keys
    ensures from.contents + to.contents == old(from.contents + to.contents)
  {
    var chain := first;
    ghost var now := full;
    while chain != []
      invariant now == full[s := chain] && now[s] == chain
      invariant Table(now, from.contents) && from.count == |from.contents|
      invariant to.Valid() && to.rehashingIdx == old(to.rehashingIdx) && from.contents.Keys !! to.contents.Keys
      invariant from.contents + to.contents == old(from.contents + to.contents)
    {
      ghost var rest := full[s := chain[1..]];
      assert rest == now[s := now[s][1..]];
      MoveEntry(from, to, chain[0], now, rest, s);
      chain, now := chain[1..], rest;
    }
  }

  /** The chain at `rehashingIdx` moves entry by entry. */
  method MoveSlot<V(0)>(from: HashStruct<V>, to: HashStruct<V>)
    requires from.Valid() && to.Valid() && from != to && from.table != to.table
    requires from.contents.Keys !! to.contents.Keys && from.rehashingIdx >= 0
    modifies from, from.table, to, to.table
    ensures from.Valid() && to.Valid() && from.rehashingIdx == old(from.rehashingIdx) && to.rehashingIdx == old(to.rehashingIdx)
    ensures from.contents.Keys !! to.contents.Keys
    ensures from.contents + to.contents == old(from.contents + to.contents)
    ensures from.table[..] == old(from.table[..])[from.rehashingIdx := []]
  {
    ghost var full := from.table[..];
    var chain := from.table[from.rehashingIdx];
    from.table[from.rehashingIdx] := []; // disconnect with slot
    MoveChain(from, to, chain, full, from.rehashingIdx);
  }

  class Rehashable<V(0)> {
    var cur: HashStruct<V>
    var backup: HashStruct?<V>
    const maxLoad: real

    ghost var Repr: set<object>

    ghost predicate Owned()
      reads this
    {
      {this, cur, cur.table} <= Repr && (backup != null ==> {backup, backup.table} <= Repr)
    }

    /** Both tables exist, are sound and apart, and share no key; every slot before the rehashing
        index is empty. */
    ghost predicate Moving()
      reads this, Repr
      ensures Moving() ==> Owned()
    {
      && Owned() && backup != null && cur != backup && cur.table != backup.table
      && cur.Valid() && backup.Valid() && backup.rehashingIdx == -1
      && backup.table.Length == GROW_FACTOR * cur.table.Length
      && cur.contents.Keys !! backup.contents.Keys
      && Drained(cur.table[..], cur.rehashingIdx)
    }

    /** Between calls, the backup exists iff a rehash is under way. */
    ghost predicate Sound()
      reads this, Repr
      ensures Sound() ==> Owned()
    {
      Owned() && if cur.rehashingIdx == -1 then cur.Valid() && backup == null else Moving()
    }

    ghost function Contents(): map<Bytes, V>
      requires Owned()
      reads this, Repr
    {
      if backup == null then cur.contents else cur.contents + backup.contents
    }

    ghost function Total(): nat
      requires Owned()
      reads this, Repr
    {
      cur.count + if backup == null then 0 else backup.count
    }

    /** The bound that keeps rehashes from overlapping, at the default load factor. */
    ghost predicate Bounded(extra: nat)
      requires Owned()
      reads this, Repr
    {
      maxLoad == 1.0 ==>
        Total() <= cur.table.Length + extra + if backup == null then 0 else cur.rehashingIdx
    }

    ghost predicate Valid()
      reads this, Repr
    {
      Sound() && Bounded(1)
    }

    constructor (maxLoad: real := 1.0)
      ensures Valid() && fresh(Repr) && Contents() == map[] && this.maxLoad == maxLoad
      ensures cur.table.Length == 16 && backup == null
    {
      cur := new HashStruct<V>(INITIAL_SLOTS);
      backup := null;
      this.maxLoad := maxLoad;
      new;
      Repr := {this, cur, cur.table};
    }

    method CheckNeedRehash() returns (need: bool)
      requires Valid()
      modifies cur`rehashingIdx
      ensures need <==> old(cur.rehashingIdx) != -1 || Overloaded(cur.count, cur.table.Length, maxLoad)
      ensures cur.Valid()
      ensures old(cur.rehashingIdx) != -1 || !need ==> cur.rehashingIdx == old(cur.rehashingIdx)
      ensures need ==> Drained(cur.table[..], cur.rehashingIdx)
    {
      need := cur.rehashingIdx != -1 || Overloaded(cur.count, cur.table.Length, maxLoad);
      if need && cur.rehashingIdx == -1 {
        cur.StepRehashingIdx();
      }
    }

    method EnsureBackup()
      requires Owned() && cur.Valid() && Drained(cur.table[..], cur.rehashingIdx)
      requires backup != null ==> Moving()
      modifies this`backup, this`Repr
      ensures Moving() && fresh(Repr - old(Repr))
      ensures old(backup) != null ==> backup == old(backup)
      ensures Contents() == old(Contents()) && Total() == old(Total())
    {
      hide Drained;
      if backup == null {
        backup := new HashStruct<V>(cur.table.Length * GROW_FACTOR);
        Repr := Repr + {backup, backup.table};
        assert cur.contents + backup.contents == cur.contents;
      }
    }

    method MoveNextSlot()
      requires Moving() && cur.rehashingIdx != -1
      modifies Repr - {this}
      ensures Moving() && (cur.rehashingIdx == -1 || cur.rehashingIdx > old(cur.rehashingIdx))
      ensures Contents() == old(Contents()) && Total() == old(Total())
    {
      UnionSize(cur.contents, backup.contents);
      MoveSlot(cur, backup);
      UnionSize(cur.contents, backup.contents);
      cur.StepRehashingIdx();
    }

    /** The end of `PerformRehash`: the emptiness test cannot fail once stepping has yielded -1. */
    method TakeOver() returns (empty: bool)
      requires Moving() && cur.rehashingIdx == -1
      modifies this
      ensures Owned() && Repr == old(Repr)
      ensures empty && backup == null && cur == old(backup) && cur.Valid() && cur.rehashingIdx == -1
      ensures Contents() == old(Contents()) && Total() == old(Total())
    {
      empty := cur.EnsureAllSlotsEmpty();
      AllEmpty(cur.table[..], cur.contents);
      if empty {
        assert cur.contents + backup.contents == backup.contents;
        cur := backup;
        backup := null;
      }
    }

    /** Moves one slot; `rehashed` tells that the backup took over. */
    method PerformRehash() returns (rehashed: bool)
      requires Owned() && cur.Valid() && Drained(cur.table[..], cur.rehashingIdx)
      requires backup != null ==> Moving()
      modifies Repr
      ensures Sound() && fresh(Repr - old(Repr))
      ensures Contents() == old(Contents()) && Total() == old(Total())
      ensures rehashed ==> backup == null && cur.table.Length == 2 * old(cur.table.Length)
      ensures !rehashed ==> backup != null && cur == old(cur) && cur.rehashingIdx > old(cur.rehashingIdx) >= 0
      ensures old(backup) != null ==> (if rehashed then cur else backup) == old(backup)
    {
      hide Drained;
      EnsureBackup();
      if cur.rehashingIdx != -1 {
        MoveNextSlot();
      }
      rehashed := false;
      if cur.rehashingIdx == -1 {
        rehashed := TakeOver();
      }
    }

    /** How many more stepping operations the rehash can take. */
    ghost function StepsLeft(): nat
      requires Sound()
      reads this, Repr
    {
      if backup == null then 0 else cur.table.Length - cur.rehashingIdx
    }

    /** The next stepping operation moves a slot: a rehash is under way or about to start. */
    ghost predicate Due()
      requires Sound()
      reads this, Repr
    {
      cur.rehashingIdx != -1 || Overloaded(cur.count, cur.table.Length, maxLoad)
    }

    /** How many stepping operations a due rehash takes at most, the first one included. */
    ghost function Remaining(): nat
      requires Sound()
      reads this, Repr
    {
      if backup == null then cur.table.Length else StepsLeft()
    }

    /** Moves a slot if a rehash is due. */
    method MoveDue()
      requires Valid()
      modifies Repr
      ensures Sound() && fresh(Repr - old(Repr))
      ensures Contents() == old(Contents()) && Total() == old(Total())
      ensures !old(Due()) ==> backup == null && cur == old(cur)
      ensures old(Due()) && backup == null ==> cur.table.Length == 2 * old(cur.table.Length)
      ensures old(Due()) && backup != null ==> cur == old(cur) && cur.rehashingIdx > old(cur.rehashingIdx)
      ensures backup != null ==> 0 < cur.rehashingIdx < cur.table.Length
    {
      hide Drained;
      var need := CheckNeedRehash();
      if need {
        var _ := PerformRehash();
      }
    }

    /** The opening of every stepping operation. It makes room for one more entry, and a rehash
        that it completes leaves no new one due. */
    method Step()
      requires Valid()
      modifies Repr
      ensures Sound() && Bounded(0) && fresh(Repr - old(Repr))
      ensures Contents() == old(Contents())
      ensures old(StepsLeft()) > 0 ==> StepsLeft() < old(StepsLeft())
      ensures StepsLeft() < cur.table.Length
      ensures old(Due()) ==> if backup == null then cur.table.Length == 2 * old(cur.table.Length)
                             else cur == old(cur) && StepsLeft() < old(Remaining())
      ensures maxLoad == 1.0 && backup == null ==> !Overloaded(cur.count, cur.table.Length, maxLoad)
      ensures maxLoad == 1.0 && backup != null ==> !Overloaded(backup.count, backup.table.Length, maxLoad)
    {
      hide Drained, Overloaded;
      DefaultLoad(cur.count, cur.table.Length);
      MoveDue();
      DefaultLoad(cur.count, cur.table.Length);
      if backup != null {
        DefaultLoad(backup.count, backup.table.Length);
      }
    }

    /** What an operation on the tables themselves leaves alone. */
    twostate predicate SameTables()
      reads this, cur
    {
      Repr == old(Repr) && cur == old(cur) && backup == old(backup) && cur.rehashingIdx == old(cur.rehashingIdx)
    }

    method ResetInMaster(s: nat, j: nat, v: V)
      requires Sound() && Bounded(0) && backup != null && s < cur.table.Length && j < |cur.table[s]|
      modifies cur, cur.table
      ensures Sound() && Bounded(1) && SameTables()
      ensures Contents() == old(Contents())[old(cur.table[s][j].key) := v]
    {
      assert Placed(cur.table[..][s][j], s, cur.table.Length, cur.contents);
      UnionPut(cur.contents, backup.contents, cur.table[s][j].key, v);
      cur.Reset(s, j, v);
      assert forall i :: 0 <= i < cur.table.Length && old(cur.table[i]) == [] ==> |cur.table[i]| == 0;
    }

    method PutInBackup(key: Bytes, v: V) returns (status: Status)
      requires Sound() && Bounded(0) && backup != null && key !in cur.contents
      modifies backup, backup.table
      ensures Sound() && Bounded(1) && SameTables()
      ensures Contents() == old(Contents())[key := v]
      ensures status == if key in old(Contents()) then Updated else NewAdded
    {
      UnionPut(cur.contents, backup.contents, key, v);
      status := backup.UpdateKV(key, v);
    }

    method PutIdle(key: Bytes, v: V) returns (status: Status)
      requires Sound() && Bounded(0) && backup == null
      modifies cur, cur.table
      ensures Sound() && Bounded(1) && SameTables()
      ensures Contents() == old(Contents())[key := v]
      ensures status == if key in old(Contents()) then Updated else NewAdded
    {
      status := cur.UpdateKV(key, v);
    }

    /** `HashDict::Update` behind its rehash step. */
    method Put(key: Bytes, v: V) returns (status: Status)
      requires Sound() && Bounded(0)
      modifies Repr
      ensures Sound() && Bounded(1) && SameTables()
      ensures Contents() == old(Contents())[key := v]
      ensures status == if key in old(Contents()) then Updated else NewAdded
    {
      if cur.rehashingIdx == -1 {
        status := PutIdle(key, v);
      } else {
        var s, j := cur.FindEntry(key);
        if j >= 0 {
          ResetInMaster(s, j, v);
          status := Updated;
        } else {
          status := PutInBackup(key, v);
        }
      }
    }

    method Update(key: Bytes, v: V) returns (status: Status)
      requires Valid()
      modifies Repr
      ensures Valid() && fresh(Repr - old(Repr))
      ensures Contents() == old(Contents())[key := v]
      ensures status == if key in old(Contents()) then Updated else NewAdded
      ensures StepsLeft() < cur.table.Length
      ensures old(StepsLeft()) > 0 ==> StepsLeft() < old(StepsLeft())
    {
      Step();
      status := Put(key, v);
    }

    method AddInBackup(key: Bytes, v: V) returns (status: Status)
      requires Sound() && Bounded(0) && backup != null && key !in cur.contents
      modifies backup, backup.table
      ensures Sound() && Bounded(1) && SameTables()
      ensures Contents() == if key in old(Contents()) then old(Contents()) else old(Contents())[key := v]
      ensures status == if key in old(Contents()) then Existed else NewAdded
    {
      UnionPut(cur.contents, backup.contents, key, v);
      status := backup.Add(key, v);
    }

    method AddIdle(key: Bytes, v: V) returns (status: Status)
      requires Sound() && Bounded(0) && backup == null
      modifies cur, cur.table
      ensures Sound() && Bounded(1) && SameTables()
      ensures Contents() == if key in old(Contents()) then old(Contents()) else old(Contents())[key := v]
      ensures status == if key in old(Contents()) then Existed else NewAdded
    {
      status := cur.Add(key, v);
    }

    /** `HashSet::Insert` behind its rehash step: an item that is present stays as it is. */
    method PutIfAbsent(key: Bytes, v: V) returns (status: Status)
      requires Sound() && Bounded(0)
      modifies Repr
      ensures Sound() && Bounded(1) && SameTables()
      ensures Contents() == if key in old(Contents()) then old(Contents()) else old(Contents())[key := v]
      ensures status == if key in old(Contents()) then Existed else NewAdded
    {
      if cur.rehashingIdx == -1 {
        status := AddIdle(key, v);
      } else {
        var _, j := cur.FindEntry(key);
        if j >= 0 { return Existed; }
        status := AddInBackup(key, v);
      }
    }

    method Insert(key: Bytes, v: V) returns (status: Status)
      requires Valid()
      modifies Repr
      ensures Valid() && fresh(Repr - old(Repr))
      ensures Contents() == if key in old(Contents()) then old(Contents()) else old(Contents())[key := v]
      ensures status == if key in old(Contents()) then Existed else NewAdded
      ensures StepsLeft() < cur.table.Length
      ensures old(StepsLeft()) > 0 ==> StepsLeft() < old(StepsLeft())
    {
      Step();
      status := PutIfAbsent(key, v);
    }

    method EraseIdle(key: Bytes) returns (erased: bool)
      requires Sound() && Bounded(0) && backup == null
      modifies cur, cur.table
      ensures Sound() && Bounded(0) && SameTables()
      ensures erased == (key in old(Contents())) && Contents() == old(Contents()) - {key}
    {
      erased := cur.EraseKey(key);
    }

    method EraseMaster(key: Bytes) returns (erased: bool)
      requires Sound() && Bounded(0) && backup != null
      modifies cur, cur.table
      ensures Sound() && Bounded(0) && SameTables()
      ensures erased == (key in old(cur.contents)) && key !in cur.contents
      ensures key !in backup.contents ==> Contents() == old(Contents()) - {key}
      ensures !erased ==> Contents() == old(Contents())
    {
      UnionDrop(cur.contents, backup.contents, key);
      erased := cur.EraseKey(key);
      assert Drained(cur.table[..], cur.rehashingIdx);
    }

    method EraseBackup(key: Bytes) returns (erased: bool)
      requires Sound() && Bounded(0) && backup != null && key !in cur.contents
      modifies backup, backup.table
      ensures Sound() && Bounded(0) && SameTables()
      ensures erased == (key in old(Contents())) && Contents() == old(Contents()) - {key}
    {
      UnionDrop(cur.contents, backup.contents, key);
      erased := backup.EraseKey(key);
    }

    method EraseBehind(key: Bytes) returns (erased: bool)
      requires Sound() && Bounded(0)
      modifies Repr
      ensures Sound() && Bounded(0) && SameTables()
      ensures erased == (key in old(Contents())) && Contents() == old(Contents()) - {key}
    {
      if backup == null {
        erased := EraseIdle(key);
      } else {
        erased := EraseMaster(key);
        if !erased {
          erased := EraseBackup(key);
        }
      }
    }

    method Erase(key: Bytes) returns (erased: bool)
      requires Valid()
      modifies Repr
      ensures Valid() && fresh(Repr - old(Repr))
      ensures Contents() == old(Contents()) - {key}
      ensures erased == (key in old(Contents()))
      ensures StepsLeft() < cur.table.Length
      ensures old(StepsLeft()) > 0 ==> StepsLeft() < old(StepsLeft())
    {
      Step();
      erased := EraseBehind(key);
    }

    /** The lookup behind `HashDict::At`: the value, or the exception. */
    method Lookup(key: Bytes) returns (r: Option<V>)
      requires Sound()
      ensures r == if key in Contents() then Some(Contents()[key]) else None
    {
      var s, j := cur.FindEntry(key);
      if j >= 0 { return Some(cur.table[s][j].value); }
      if backup != null {
        s, j := backup.FindEntry(key);
        if j >= 0 { return Some(backup.table[s][j].value); }
      }
      return None;
    }

    method At(key: Bytes) returns (r: Option<V>)
      requires Valid()
      modifies Repr
      ensures Valid() && fresh(Repr - old(Repr))
      ensures Contents() == old(Contents())
      ensures r == if key in old(Contents()) then Some(old(Contents())[key]) else None
      ensures StepsLeft() < cur.table.Length
      ensures old(StepsLeft()) > 0 ==> StepsLeft() < old(StepsLeft())
    {
      Step();
      r := Lookup(key);
    }

    method CheckExists(key: Bytes) returns (found: bool)
      requires Valid()
      ensures found <==> key in Contents()
    {
      var s, j := cur.FindEntry(key);
      found := j >= 0;
      if !found && backup != null {
        s, j := backup.FindEntry(key);
        found := j >= 0;
      }
    }

    method Count() returns (n: nat)
      requires Valid()
      ensures n == |Contents()|
    {
      n := cur.count;
      if backup != null {
        UnionSize(cur.contents, backup.contents);
        n := n + backup.count;
      }
    }

    method AllEntries() returns (es: seq<Entry<V>>)
      requires Valid()
      ensures Lists(es, Contents()) && |es| == |Contents()|
    {
      es := cur.AllEntries();
      if backup != null {
        var more := backup.AllEntries();
        ListsUnion(es, cur.contents, more, backup.contents);
        es := es + more;
      }
      ListsSize(es, Contents());
    }
  }

  // ----- Whole runs against a plain map -----

  datatype Op<V> = UpdateOp(key: Bytes, value: V) | InsertOp(key: Bytes, value: V) | EraseOp(key: Bytes)
    | AtOp(key: Bytes) | ExistsOp(key: Bytes)

  datatype Answer<V> = Put(status: Status) | Found(yes: bool) | Got(value: Option<V>)

  function MapStep<V>(m: map<Bytes, V>, op: Op<V>): (map<Bytes, V>, Answer<V>) {
    match op
    case UpdateOp(k, v) => (m[k := v], Put(if k in m then Updated else NewAdded))
    case InsertOp(k, v) => (if k in m then m else m[k := v], Put(if k in m then Existed else NewAdded))
    case EraseOp(k) => (m - {k}, Found(k in m))
    case AtOp(k) => (m, Got(if k in m then Some(m[k]) else None))
    case ExistsOp(k) => (m, Found(k in m))
  }

  /** What a plain map does and answers, from an empty one or from `start`. */
  function MapRun<V>(ops: seq<Op<V>>, start: map<Bytes, V> := map[]): (map<Bytes, V>, seq<Answer<V>>) {
    if ops == [] then (start, [])
    else
      var (m, answers) := MapRun(ops[..|ops| - 1], start);
      var (m', a) := MapStep(m, ops[|ops| - 1]);
      (m', answers + [a])
  }

  method Apply<V(0)>(d: Rehashable<V>, op: Op<V>) returns (a: Answer<V>)
    requires d.Valid()
    modifies d.Repr
    ensures d.Valid() && fresh(d.Repr - old(d.Repr))
    ensures (d.Contents(), a) == MapStep(old(d.Contents()), op)
  {
    match op {
      case UpdateOp(k, v) => var status := d.Update(k, v); a := Put(status);
      case InsertOp(k, v) => var status := d.Insert(k, v); a := Put(status);
      case EraseOp(k) => var yes := d.Erase(k); a := Found(yes);
      case AtOp(k) => var r := d.At(k); a := Got(r);
      case ExistsOp(k) => var yes := d.CheckExists(k); a := Found(yes);
    }
  }

  lemma MapRunStep<V>(ops: seq<Op<V>>, i: nat, start: map<Bytes, V>)
    requires i < |ops|
    ensures var (m, answers) := MapRun(ops[..i], start); var (m', a) := MapStep(m, ops[i]);
      MapRun(ops[..i + 1], start) == (m', answers + [a])
  {
    assert ops[..i + 1][..i] == ops[..i];
  }

  /** Every run, whatever rehashes fall into it and at any load factor, answers as a map does. */
  method Run<V(0)>(ops: seq<Op<V>>, maxLoad: real) returns (d: Rehashable<V>, answers: seq<Answer<V>>)
    ensures d.Valid() && (d.Contents(), answers) == MapRun(ops)
  {
    d := new Rehashable<V>(maxLoad);
    answers := RunOn(d, ops);
  }

  /** The same on a table that is there already. */
  method RunOn<V(0)>(d: Rehashable<V>, ops: seq<Op<V>>) returns (answers: seq<Answer<V>>)
    requires d.Valid()
    modifies d.Repr
    ensures d.Valid() && fresh(d.Repr - old(d.Repr))
    ensures (d.Contents(), answers) == MapRun(ops, old(d.Contents()))
  {
    hide MapStep, Drained, Overloaded;
    answers := [];
    ghost var start := d.Contents();
    for i := 0 to |ops|
      invariant d.Valid() && fresh(d.Repr - old(d.Repr))
      invariant (d.Contents(), answers) == MapRun(ops[..i], start)
    {
      MapRunStep(ops, i, start);
      var a := Apply(d, ops[i]);
      answers := answers + [a];
    }
    assert ops[..|ops|] == ops;
  }

  // ----- How long a rehash takes -----

  /** What a stepping operation does once its slot is moved. */
  method Behind<V(0)>(d: Rehashable<V>, op: Op<V>) returns (a: Answer<V>)
    requires d.Sound() && d.Bounded(0) && !op.ExistsOp?
    modifies d.Repr
    ensures d.Valid() && d.SameTables()
    ensures (d.Contents(), a) == MapStep(old(d.Contents()), op)
  {
    match op {
      case UpdateOp(k, v) => var status := d.Put(k, v); a := Put(status);
      case InsertOp(k, v) => var status := d.PutIfAbsent(k, v); a := Put(status);
      case EraseOp(k) => var yes := d.EraseBehind(k); a := Found(yes);
      case AtOp(k) => var r := d.Lookup(k); a := Got(r);
    }
  }

  /** A stepping operation on a table whose rehash is due, cut short if that ends the rehash. */
  method Round<V(0)>(d: Rehashable<V>, op: Op<V>) returns (done: bool, a: Answer<V>)
    requires d.Valid() && d.Due() && !op.ExistsOp?
    modifies d.Repr
    ensures fresh(d.Repr - old(d.Repr))
    ensures done ==> d.Sound() && d.Bounded(0) && d.backup == null && d.Contents() == old(d.Contents())
    ensures done ==> d.cur.table.Length == 2 * old(d.cur.table.Length) && (d.maxLoad == 1.0 ==> !d.Due())
    ensures !done ==> d.Valid() && d.Due() && (d.Contents(), a) == MapStep(old(d.Contents()), op)
    ensures !done ==> d.cur.table.Length == old(d.cur.table.Length) && d.Remaining() < old(d.Remaining())
  {
    hide Drained, Overloaded;
    d.Step();
    a := Found(false);
    done := d.backup == null;
    if !done { a := Behind(d, op); }
  }

  /** From when a rehash is due, it is over within as many stepping operations as the old table has
      slots, at any load factor: `n` of them are done whole, and the slot that the next one moves is
      the last. At the default load factor no other rehash is due then. */
  method FinishRehash<V(0)>(d: Rehashable<V>, ops: seq<Op<V>>) returns (n: nat, answers: seq<Answer<V>>)
    requires d.Valid() && d.Due() && |ops| >= d.cur.table.Length && forall op :: op in ops ==> !op.ExistsOp?
    modifies d.Repr
    ensures n < old(d.cur.table.Length)
    ensures d.Sound() && d.Bounded(0) && d.backup == null
    ensures d.cur.table.Length == 2 * old(d.cur.table.Length)
    ensures d.maxLoad == 1.0 ==> !d.Due()
    ensures (d.Contents(), answers) == MapRun(ops[..n], old(d.Contents()))
  {
    hide Drained, Overloaded, MapStep;
    n, answers := 0, [];
    ghost var slots, start := d.cur.table.Length, d.Contents();
    var done := false;
    while !done
      invariant fresh(d.Repr - old(d.Repr)) && n < slots && d.Sound()
      invariant done ==> d.Bounded(0) && d.backup == null && d.cur.table.Length == GROW_FACTOR * slots
      invariant done ==> (d.maxLoad == 1.0 ==> !d.Due())
      invariant !done ==> d.Valid() && d.Due() && d.cur.table.Length == slots && n + d.Remaining() <= slots
      invariant (d.Contents(), answers) == MapRun(ops[..n], start)
      decreases !done, slots - n
    {
      MapRunStep(ops, n, start);
      assert ops[n] in ops;
      var a;
      done, a := Round(d, ops[n]);
      if !done { n, answers := n + 1, answers + [a]; }
    }
  }
}
