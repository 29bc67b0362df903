/** The comparator of src/skiplist.h: score first, then `strncmp` over the common length,
    then the lengths. */
module SkipOrder {
  import opened ByteStrings

  datatype Key = Key(score: int, data: Bytes)

  /** `strncmp(a, b, n)` over buffers that hold at least `n` bytes. */
  function StrNCmp(a: Bytes, b: Bytes, n: nat): int
    requires n <= |a| && n <= |b|
    decreases n
  {
    if n == 0 then 0
    else if a[0] != b[0] then a[0] - b[0]
    else if a[0] == 0 then 0
    else StrNCmp(a[1..], b[1..], n - 1)
  }

  function Min(a: nat, b: nat): nat { if a < b then a else b }

  /** `SKNodeComparator::operator()`: 0 equal, 1 greater, -1 smaller. */
  function Cmp(t: Key, b: Key): int {
    if t.score == b.score then
      var res := StrNCmp(t.data, b.data, Min(|t.data|, |b.data|));
      if res == 0 then
        if |t.data| == |b.data| then 0 else if |t.data| < |b.data| then -1 else 1
      else if res < 0 then -1 else 1
    else if t.score < b.score then -1 else 1
  }

  /** The key up to what the comparator can see. */
  function Canon(k: Key): Key { Key(k.score, Norm(k.data)) }

  /** Reference order: lexicographic on bytes, a proper prefix being smaller. */
  function Lex(a: Bytes, b: Bytes): int {
    if a == [] then (if b == [] then 0 else -1)
    else if b == [] then 1
    else if a[0] != b[0] then (if a[0] < b[0] then -1 else 1)
    else Lex(a[1..], b[1..])
  }

  function LexKey(a: Key, b: Key): int {
    if a.score != b.score then (if a.score < b.score then -1 else 1) else Lex(a.data, b.data)
  }

  lemma {:induction false} LexZeros(a: Bytes, b: Bytes)
    requires forall i :: 0 <= i < |a| ==> a[i] == 0
    requires forall i :: 0 <= i < |b| ==> b[i] == 0
    ensures Lex(a, b) == if |a| == |b| then 0 else if |a| < |b| then -1 else 1
  {
    if a != [] && b != [] { LexZeros(a[1..], b[1..]); }
  }

  lemma {:induction false} StrNCmpIsLex(a: Bytes, b: Bytes)
    ensures var r := StrNCmp(a, b, Min(|a|, |b|));
      Lex(Norm(a), Norm(b)) ==
        if r < 0 then -1 else if r > 0 then 1
        else if |a| == |b| then 0 else if |a| < |b| then -1 else 1
  {
    if a != [] && b != [] {
      if a[0] == 0 && b[0] == 0 {
        LexZeros(Norm(a), Norm(b));
      } else if a[0] == b[0] {
        assert Norm(a)[1..] == Norm(a[1..]) && Norm(b)[1..] == Norm(b[1..]);
        StrNCmpIsLex(a[1..], b[1..]);
      }
    }
  }

  /** The comparator is the lexicographic order of the canonical keys, for all byte strings. */
  lemma CmpIsLex(a: Key, b: Key)
    ensures Cmp(a, b) == LexKey(Canon(a), Canon(b))
  {
    StrNCmpIsLex(a.data, b.data);
  }

  lemma {:induction false} LexZero(a: Bytes, b: Bytes)
    ensures Lex(a, b) == 0 <==> a == b
    ensures Lex(a, b) == -Lex(b, a)
  {
    if a != [] && b != [] && a[0] == b[0] {
      LexZero(a[1..], b[1..]);
      assert a == [a[0]] + a[1..] && b == [b[0]] + b[1..];
    }
  }

  lemma {:induction false} LexTransitive(a: Bytes, b: Bytes, c: Bytes)
    requires Lex(a, b) <= 0 && Lex(b, c) <= 0
    ensures Lex(a, c) <= 0
    ensures Lex(a, b) < 0 || Lex(b, c) < 0 ==> Lex(a, c) < 0
  {
    if a != [] && b != [] && c != [] && a[0] == b[0] == c[0] {
      LexTransitive(a[1..], b[1..], c[1..]);
    }
  }

  /** Equality under the comparator is equality of canonical keys; on NUL-free data it is
      equality of keys. */
  lemma CmpZero(a: Key, b: Key)
    ensures Cmp(a, b) == 0 <==> Canon(a) == Canon(b)
    ensures NulFree(a.data) && NulFree(b.data) ==> (Cmp(a, b) == 0 <==> a == b)
    ensures Cmp(a, b) == -Cmp(b, a)
  {
    CmpIsLex(a, b);
    CmpIsLex(b, a);
    LexZero(Norm(a.data), Norm(b.data));
  }

  // ----- The order in terms of scores and bytes -----

  /** The strings agree up to position `i`, where `a` ends or has the smaller byte. */
  predicate SmallerAt(a: Bytes, b: Bytes, i: nat) {
    i <= |a| && i < |b| && a[..i] == b[..i] && (i == |a| || a[i] < b[i])
  }

  /** A proper prefix, or smaller at the first byte that differs. */
  predicate DataBefore(a: Bytes, b: Bytes) { exists i: nat :: i <= |a| && SmallerAt(a, b, i) }

  /** The lower score comes first; equal scores go by the data, as far as a NUL lets it be seen. */
  predicate KeyBefore(a: Key, b: Key) {
    a.score < b.score || (a.score == b.score && DataBefore(Norm(a.data), Norm(b.data)))
  }

  lemma SameFirst(a: Bytes, b: Bytes, i: nat)
    requires SmallerAt(a, b, i)
    ensures i > 0 ==> a != [] && b != [] && a[0] == b[0]
  {
    if i > 0 { assert a[0] == a[..i][0] && b[0] == b[..i][0]; }
  }

  lemma {:induction false} LexIsBefore(a: Bytes, b: Bytes)
    ensures Lex(a, b) < 0 <==> DataBefore(a, b)
  {
    if b == [] {
    } else if a == [] || a[0] != b[0] {
      if a == [] || a[0] < b[0] { assert SmallerAt(a, b, 0); }
      if DataBefore(a, b) {
        var i: nat :| i <= |a| && SmallerAt(a, b, i);
        SameFirst(a, b, i);
      }
    } else {
      LexIsBefore(a[1..], b[1..]);
      if DataBefore(a[1..], b[1..]) {
        var i: nat :| i <= |a[1..]| && SmallerAt(a[1..], b[1..], i);
        assert a[..i + 1] == [a[0]] + a[1..][..i] && b[..i + 1] == [b[0]] + b[1..][..i];
        assert SmallerAt(a, b, i + 1);
      }
      if DataBefore(a, b) {
        var i: nat :| i <= |a| && SmallerAt(a, b, i);
        assert i > 0;
        assert a[1..][..i - 1] == a[..i][1..] && b[1..][..i - 1] == b[..i][1..];
        assert SmallerAt(a[1..], b[1..], i - 1);
      }
    }
  }

  /** What the sign of the comparator means. */
  lemma CmpMeans(t: Key, b: Key)
    ensures Cmp(t, b) < 0 <==> KeyBefore(t, b)
    ensures Cmp(t, b) > 0 <==> KeyBefore(b, t)
  {
    CmpIsLex(t, b);
    CmpIsLex(b, t);
    CmpZero(t, b);
    LexIsBefore(Norm(t.data), Norm(b.data));
    LexIsBefore(Norm(b.data), Norm(t.data));
  }

  lemma CmpTransitive(a: Key, b: Key, c: Key)
    requires Cmp(a, b) <= 0 && Cmp(b, c) <= 0
    ensures Cmp(a, c) <= 0
    ensures Cmp(a, b) < 0 || Cmp(b, c) < 0 ==> Cmp(a, c) < 0
  {
    CmpIsLex(a, b);
    CmpIsLex(b, c);
    CmpIsLex(a, c);
    if a.score == b.score == c.score {
      LexTransitive(Norm(a.data), Norm(b.data), Norm(c.data));
    }
  }

  /** Behind a NUL the comparator is blind: two different members can count as one. */
  lemma NulHidesDifference()
    ensures var a, b := Key(7, [97, 0, 98]), Key(7, [97, 0, 99]);
      a != b && Cmp(a, b) == 0
  {
    var a, b := Key(7, [97, 0, 98]), Key(7, [97, 0, 99]);
    assert Norm([97, 0, 98])[1..] == Norm([0, 98]) == [0, 0];
    assert Norm([97, 0, 99])[1..] == Norm([0, 99]) == [0, 0];
    assert Norm(a.data) == Norm(b.data);
    CmpZero(a, b);
    assert a.data[2] != b.data[2];
  }
}

/** The skip list of src/skiplist.cpp. */
module SkipLists {
  import opened ByteStrings
  import opened SkipOrder

  const MAX_LEVEL: nat := 32

  class SKNode {
    const key: Key
    const level: nat
    var prev: SKNode?
    var nexts: seq<SKNode?>

    constructor (key: Key, level: nat)
      ensures this.key == key && this.level == level && prev == null
      ensures |nexts| == level && forall l :: 0 <= l < level ==> nexts[l] == null
    {
      this.key, this.level, prev, nexts := key, level, null, seq(level, _ => null);
    }
  }

  type Links = seq<seq<SKNode?>>

  // ----- The shape, as a function of the node sequence -----

  /** Index of the first node behind `i` that is tall enough for level `l`, or `|nodes|`. */
  ghost function Next(nodes: seq<SKNode>, i: nat, l: nat): (j: nat)
    requires i < |nodes|
    ensures i < j <= |nodes|
    ensures j < |nodes| ==> l < nodes[j].level
    ensures forall k :: i < k < j ==> nodes[k].level <= l
    decreases |nodes| - i
  {
    if i + 1 == |nodes| || l < nodes[i + 1].level then i + 1 else Next(nodes, i + 1, l)
  }

  ghost function At(nodes: seq<SKNode>, j: nat): SKNode? {
    if j < |nodes| then nodes[j] else null
  }

  ghost predicate Sized(nodes: seq<SKNode>, links: Links) {
    |links| == |nodes| && forall i {:trigger links[i]} :: 0 <= i < |nodes| ==> |links[i]| == nodes[i].level
  }

  /** The level-`l` chain is exactly the subsequence of nodes of level above `l`. */
  ghost predicate LevelLinked(nodes: seq<SKNode>, links: Links, l: nat)
    requires Sized(nodes, links)
  {
    forall i {:trigger links[i]} :: 0 <= i < |nodes| && l < nodes[i].level ==>
      links[i][l] == At(nodes, Next(nodes, i, l))
  }

  ghost predicate Linked(nodes: seq<SKNode>, links: Links) {
    Sized(nodes, links) && forall l :: 0 <= l < MAX_LEVEL ==> LevelLinked(nodes, links, l)
  }

  /** `links` are the `nexts` fields of the nodes. */
  ghost predicate HasLinks(nodes: seq<SKNode>, links: Links)
    reads (set n | n in nodes)`nexts
  {
    |links| == |nodes| && forall i :: 0 <= i < |nodes| ==> nodes[i].nexts == links[i]
  }

  ghost predicate BackLinked(nodes: seq<SKNode>)
    reads (set n | n in nodes)`prev
  {
    forall i :: 1 <= i < |nodes| ==> nodes[i].prev == nodes[i - 1]
  }

  ghost predicate Sorted(nodes: seq<SKNode>) {
    forall i, j :: 1 <= i < j < |nodes| ==> Cmp(nodes[i].key, nodes[j].key) < 0
  }

  ghost predicate Distinct(nodes: seq<SKNode>) {
    forall i, j :: 0 <= i < j < |nodes| ==> nodes[i] != nodes[j]
  }

  ghost predicate Shaped(nodes: seq<SKNode>) {
    && |nodes| >= 1 && nodes[0].level == MAX_LEVEL
    && (forall i :: 0 <= i < |nodes| ==> 1 <= nodes[i].level <= MAX_LEVEL)
    && Distinct(nodes) && Sorted(nodes)
  }

  /** `m` is the largest level behind the head, 0 if there is no node. */
  ghost predicate IsMaxLevel(nodes: seq<SKNode>, m: nat) {
    && (forall i :: 1 <= i < |nodes| ==> nodes[i].level <= m)
    && (m == 0 || exists i :: 1 <= i < |nodes| && nodes[i].level == m)
  }

  /** The members of the list: canonical keys behind the head. */
  ghost function Members(nodes: seq<SKNode>): set<Key> {
    set i | 1 <= i < |nodes| :: Canon(nodes[i].key)
  }

  /** The nodes go by ascending score, and by their bytes where scores are equal. */
  lemma InOrder(nodes: seq<SKNode>)
    requires Sorted(nodes)
    ensures forall i, j :: 1 <= i < j < |nodes| ==>
      && nodes[i].key.score <= nodes[j].key.score
      && (nodes[i].key.score == nodes[j].key.score && NulFree(nodes[i].key.data) && NulFree(nodes[j].key.data) ==>
            DataBefore(nodes[i].key.data, nodes[j].key.data))
  {
    forall i, j | 1 <= i < j < |nodes| ensures KeyBefore(nodes[i].key, nodes[j].key) {
      CmpMeans(nodes[i].key, nodes[j].key);
    }
  }

  lemma LastIsLargest(nodes: seq<SKNode>)
    requires Sorted(nodes)
    ensures forall i :: 1 <= i < |nodes| ==> nodes[i].key.score <= nodes[|nodes| - 1].key.score
  {
    InOrder(nodes);
  }

  /** Where a search ends: all nodes in front come before the target, none behind does. */
  lemma SplitMeans(nodes: seq<SKNode>, t: Key, c: nat)
    requires IsSplit(nodes, t, c)
    ensures forall i :: 1 <= i < |nodes| ==> (KeyBefore(nodes[i].key, t) <==> i <= c)
  {
    forall i | 1 <= i < |nodes| ensures KeyBefore(nodes[i].key, t) <==> i <= c { CmpMeans(t, nodes[i].key); }
  }

  lemma NextIs(nodes: seq<SKNode>, i: nat, l: nat, j: nat)
    requires i < j <= |nodes|
    requires j < |nodes| ==> l < nodes[j].level
    requires forall k :: i < k < j ==> nodes[k].level <= l
    ensures Next(nodes, i, l) == j
  {
  }

  /** The head reaches a node on level `l` exactly below the largest level. */
  lemma HeadLevels(nodes: seq<SKNode>, m: nat, l: nat)
    requires |nodes| >= 1 && IsMaxLevel(nodes, m)
    ensures Next(nodes, 0, l) < |nodes| <==> l < m
  {
  }

  // ----- Searching -----

  /** `p` is where a search for `t` leaves level `l`. */
  ghost predicate IsPred(nodes: seq<SKNode>, t: Key, l: nat, p: nat) {
    && p < |nodes| && l < nodes[p].level
    && (p > 0 ==> Cmp(t, nodes[p].key) > 0)
    && (Next(nodes, p, l) < |nodes| ==> Cmp(t, nodes[Next(nodes, p, l)].key) <= 0)
  }

  /** Everything up to `c` is smaller than `t`, nothing behind it is. */
  ghost predicate IsSplit(nodes: seq<SKNode>, t: Key, c: nat) {
    && c < |nodes|
    && (forall i :: 1 <= i <= c ==> Cmp(t, nodes[i].key) > 0)
    && (forall i :: c < i < |nodes| ==> Cmp(t, nodes[i].key) <= 0)
  }

  lemma SplitAt(nodes: seq<SKNode>, t: Key, c: nat)
    requires Sorted(nodes) && c < |nodes|
    requires c > 0 ==> Cmp(t, nodes[c].key) > 0
    requires c + 1 < |nodes| ==> Cmp(t, nodes[c + 1].key) <= 0
    ensures IsSplit(nodes, t, c)
  {
    forall i | 1 <= i < c ensures Cmp(t, nodes[i].key) > 0 {
      CmpZero(t, nodes[c].key);
      CmpZero(t, nodes[i].key);
      CmpTransitive(nodes[i].key, nodes[c].key, t);
    }
    forall i | c + 1 < i < |nodes| ensures Cmp(t, nodes[i].key) <= 0 {
      CmpTransitive(t, nodes[c + 1].key, nodes[i].key);
    }
  }

  /** `t` is a member iff the node just behind the split compares equal to it. */
  lemma MemberAtSplit(nodes: seq<SKNode>, t: Key, c: nat)
    requires Sorted(nodes) && IsSplit(nodes, t, c)
    ensures Canon(t) in Members(nodes) <==> c + 1 < |nodes| && Cmp(t, nodes[c + 1].key) == 0
    ensures forall i :: c + 1 < i < |nodes| ==> Cmp(t, nodes[i].key) < 0
  {
    forall i | 1 <= i < |nodes| ensures Cmp(t, nodes[i].key) == 0 <==> Canon(t) == Canon(nodes[i].key) {
      CmpZero(t, nodes[i].key);
    }
    forall i | c + 1 < i < |nodes| ensures Cmp(t, nodes[i].key) < 0 {
      CmpTransitive(t, nodes[c + 1].key, nodes[i].key);
    }
  }

  /** The level-`l` link of node `p` jumps over position `c`. */
  ghost predicate Crosses(nodes: seq<SKNode>, l: nat, p: nat, c: nat) {
    p <= c < |nodes| && l < nodes[p].level && c < Next(nodes, p, l)
  }

  lemma PredCrosses(nodes: seq<SKNode>, t: Key, l: nat, p: nat, c: nat)
    requires IsPred(nodes, t, l, p) && IsSplit(nodes, t, c)
    ensures Crosses(nodes, l, p, c)
  {
  }

  /** On each level one link crosses a position. */
  lemma OneCrossing(nodes: seq<SKNode>, l: nat, p: nat, c: nat, i: nat)
    requires Crosses(nodes, l, p, c) && i < |nodes| && l < nodes[i].level
    ensures i <= c < Next(nodes, i, l) <==> i == p
    ensures Next(nodes, p, l) == Next(nodes, c, l)
  {
    NextIs(nodes, c, l, Next(nodes, p, l));
  }

  // ----- One node more: `with` is `nodes` with `x` behind position `c` -----

  ghost predicate Spliced<T>(nodes: seq<T>, with: seq<T>, c: nat, x: T) {
    && c < |nodes| && |with| == |nodes| + 1
    && with[c + 1] == x
    && (forall k {:trigger with[k]} :: 0 <= k < |with| && k != c + 1 ==> with[k] == nodes[Old(c, k)])
  }

  /** Position in `nodes` of the node at `k` in `with`. */
  ghost function Old(c: nat, k: nat): nat
    requires k != c + 1
  {
    if k <= c then k else k - 1
  }

  /** Position in `with` of the node at `i` in `nodes`. */
  ghost function New(c: nat, i: nat): nat {
    if i <= c then i else i + 1
  }

  /** `with` is `nodes` plus one node for `t` of the given level. */
  ghost predicate Grown(nodes: seq<SKNode>, with: seq<SKNode>, c: nat, t: Key, level: nat) {
    && c + 1 < |with| && Spliced(nodes, with, c, with[c + 1])
    && with[c + 1].key == t && with[c + 1].level == level
  }

  lemma Splice<T>(nodes: seq<T>, c: nat, x: T) returns (with: seq<T>)
    requires c < |nodes|
    ensures Spliced(nodes, with, c, x)
    ensures forall n :: n in with ==> n in nodes || n == x
  {
    with := nodes[..c + 1] + [x] + nodes[c + 1..];
  }

  lemma Unsplice<T>(with: seq<T>, c: nat) returns (nodes: seq<T>)
    requires c + 1 < |with|
    ensures Spliced(nodes, with, c, with[c + 1])
    ensures forall n :: n in nodes ==> n in with
  {
    nodes := with[..c + 1] + with[c + 2..];
  }

  /** Links with and without `x`: only links that jump over position `c` meet it. */
  lemma NextSpliced(nodes: seq<SKNode>, with: seq<SKNode>, c: nat, x: SKNode, l: nat, i: nat)
    requires Spliced(nodes, with, c, x) && i < |nodes|
    ensures At(with, Next(with, New(c, i), l)) ==
      if i <= c < Next(nodes, i, l) && l < x.level then x else At(nodes, Next(nodes, i, l))
  {
    var j, k := Next(nodes, i, l), New(c, i);
    if j <= c {
      NextIs(with, k, l, j);
    } else if i <= c && l < x.level {
      NextIs(with, k, l, c + 1);
    } else {
      forall n | k < n <= j ensures with[n].level <= l { assert n != c + 1 ==> i < Old(c, n) < j; }
      NextIs(with, k, l, j + 1);
    }
  }

  lemma NextOfNew(nodes: seq<SKNode>, with: seq<SKNode>, c: nat, x: SKNode, l: nat)
    requires Spliced(nodes, with, c, x)
    ensures At(with, Next(with, c + 1, l)) == At(nodes, Next(nodes, c, l))
  {
    NextIs(with, c + 1, l, Next(nodes, c, l) + 1);
  }

  /** Every level-`l` link of `with`, in terms of `nodes`. */
  lemma LinkOf(nodes: seq<SKNode>, with: seq<SKNode>, c: nat, x: SKNode, l: nat, p: nat, k: nat)
    requires Spliced(nodes, with, c, x) && Crosses(nodes, l, p, c) && l < x.level
    requires k < |with| && l < with[k].level
    ensures At(with, Next(with, k, l)) ==
      if k == c + 1 then At(nodes, Next(nodes, p, l))
      else if k == p then x
      else At(nodes, Next(nodes, Old(c, k), l))
  {
    if k == c + 1 {
      NextOfNew(nodes, with, c, x, l);
      OneCrossing(nodes, l, p, c, p);
    } else {
      assert New(c, Old(c, k)) == k;
      NextSpliced(nodes, with, c, x, l, Old(c, k));
      OneCrossing(nodes, l, p, c, Old(c, k));
    }
  }

  /** Level `l` as it is without `x`, stored at the positions of `with`. */
  ghost predicate Sparse(nodes: seq<SKNode>, with: seq<SKNode>, links: Links, c: nat, l: nat)
    requires c < |nodes| && |with| == |nodes| + 1 && Sized(with, links)
  {
    forall k {:trigger links[k]} :: 0 <= k < |with| && k != c + 1 && l < with[k].level ==>
      links[k][l] == At(nodes, Next(nodes, Old(c, k), l))
  }

  /** What `Insert` does to the links of one level. */
  ghost function LinkedIn(links: Links, c: nat, p: nat, x: SKNode, l: nat): Links
    requires p <= c && c + 1 < |links| && l < |links[p]| && l < |links[c + 1]|
  {
    links[c + 1 := links[c + 1][l := links[p][l]]][p := links[p][l := x]]
  }

  lemma LinkStep(nodes: seq<SKNode>, with: seq<SKNode>, links: Links, c: nat, p: nat, x: SKNode, l: nat)
    requires Spliced(nodes, with, c, x) && Sized(with, links) && Crosses(nodes, l, p, c) && l < x.level
    requires with[p] == nodes[p] && l < |links[p]| && l < |links[c + 1]|
    requires Sparse(nodes, with, links, c, l)
    ensures Sized(with, LinkedIn(links, c, p, x, l))
    ensures LevelLinked(with, LinkedIn(links, c, p, x, l), l)
  {
    var now := LinkedIn(links, c, p, x, l);
    assert Sized(with, now);
    forall k | 0 <= k < |with| && l < with[k].level ensures now[k][l] == At(with, Next(with, k, l)) {
      LinkOf(nodes, with, c, x, l, p, k);
      assert k != p && k != c + 1 ==> now[k] == links[k];
    }
  }

  /** What `Remove` does to the links of one level the node reaches. */
  ghost function LinkedOut(links: Links, c: nat, p: nat, l: nat): Links
    requires p <= c && c + 1 < |links| && l < |links[p]| && l < |links[c + 1]|
  {
    links[p := links[p][l := links[c + 1][l]]]
  }

  lemma UnlinkStep(nodes: seq<SKNode>, with: seq<SKNode>, links: Links, c: nat, p: nat, x: SKNode, l: nat)
    requires Spliced(nodes, with, c, x) && Sized(with, links) && Crosses(nodes, l, p, c) && l < x.level
    requires with[p] == nodes[p] && l < |links[p]| && l < |links[c + 1]|
    requires LevelLinked(with, links, l)
    ensures Sized(with, LinkedOut(links, c, p, l))
    ensures Sparse(nodes, with, LinkedOut(links, c, p, l), c, l)
  {
    var now := LinkedOut(links, c, p, l);
    LinkOf(nodes, with, c, x, l, p, c + 1);
    forall k | 0 <= k < |with| && k != c + 1 && l < with[k].level
      ensures now[k][l] == At(nodes, Next(nodes, Old(c, k), l))
    {
      LinkOf(nodes, with, c, x, l, p, k);
    }
  }

  /** Levels the node does not reach look the same with and without it. */
  lemma AboveNode(nodes: seq<SKNode>, with: seq<SKNode>, links: Links, c: nat, x: SKNode, l: nat)
    requires Spliced(nodes, with, c, x) && Sized(with, links) && x.level <= l
    ensures Sparse(nodes, with, links, c, l) <==> LevelLinked(with, links, l)
  {
    forall k | 0 <= k < |with| && l < with[k].level
      ensures links[k][l] == At(with, Next(with, k, l)) <==> links[k][l] == At(nodes, Next(nodes, Old(c, k), l))
    {
      assert New(c, Old(c, k)) == k;
      NextSpliced(nodes, with, c, x, l, Old(c, k));
    }
  }

  ghost predicate SameLevel(links: Links, links': Links, m: nat) {
    && |links| == |links'|
    && forall k {:trigger links'[k]} :: 0 <= k < |links| ==>
      |links'[k]| == |links[k]| && (m < |links[k]| ==> links'[k][m] == links[k][m])
  }

  lemma LevelKept(nodes: seq<SKNode>, with: seq<SKNode>, links: Links, links': Links, c: nat, m: nat)
    requires c < |nodes| && |with| == |nodes| + 1 && Sized(with, links) && SameLevel(links, links', m)
    ensures Sized(with, links')
    ensures LevelLinked(with, links, m) ==> LevelLinked(with, links', m)
    ensures Sparse(nodes, with, links, c, m) ==> Sparse(nodes, with, links', c, m)
  {
    assert Sized(with, links');
  }

  /** Levels below `done` know the node, the others do not. */
  ghost predicate Halfway(nodes: seq<SKNode>, with: seq<SKNode>, links: Links, c: nat, done: nat) {
    && c < |nodes| && |with| == |nodes| + 1 && Sized(with, links)
    && forall m :: 0 <= m < MAX_LEVEL ==>
      if m < done then LevelLinked(with, links, m) else Sparse(nodes, with, links, c, m)
  }

  lemma SpreadLinks(nodes: seq<SKNode>, with: seq<SKNode>, links: Links, links': Links, c: nat, x: SKNode, own: seq<SKNode?>)
    requires Spliced(nodes, with, c, x) && Spliced(links, links', c, own) && |own| == x.level
    requires Linked(nodes, links)
    ensures Halfway(nodes, with, links', c, 0)
  {
    assert Sized(with, links');
    forall l | 0 <= l < MAX_LEVEL ensures Sparse(nodes, with, links', c, l) {
      assert LevelLinked(nodes, links, l);
    }
  }

  lemma GatherLinks(nodes: seq<SKNode>, with: seq<SKNode>, links: Links, links': Links, c: nat, x: SKNode, own: seq<SKNode?>)
    requires Spliced(nodes, with, c, x) && Spliced(links, links', c, own)
    requires Halfway(nodes, with, links', c, 0)
    ensures Linked(nodes, links)
  {
    forall i | 0 <= i < |nodes| ensures |links[i]| == nodes[i].level {
      assert with[New(c, i)] == nodes[i] && links'[New(c, i)] == links[i];
    }
    forall l | 0 <= l < MAX_LEVEL ensures LevelLinked(nodes, links, l) {
      forall i | 0 <= i < |nodes| && l < nodes[i].level ensures links[i][l] == At(nodes, Next(nodes, i, l)) {
        assert Old(c, New(c, i)) == i && Sparse(nodes, with, links', c, l);
        assert with[New(c, i)] == nodes[i] && links'[New(c, i)] == links[i];
      }
    }
  }

  // ----- Order, levels and members with one node more or less -----

  lemma MembersSpliced(nodes: seq<SKNode>, with: seq<SKNode>, c: nat, x: SKNode)
    requires Spliced(nodes, with, c, x)
    ensures Members(with) == Members(nodes) + {Canon(x.key)}
  {
    forall k | k in Members(nodes) ensures k in Members(with) {
      var i :| 1 <= i < |nodes| && k == Canon(nodes[i].key);
      assert nodes[i] == with[New(c, i)];
    }
    forall k | k in Members(with) ensures k in Members(nodes) + {Canon(x.key)} {
      var i :| 1 <= i < |with| && k == Canon(with[i].key);
      assert i != c + 1 ==> with[i] == nodes[Old(c, i)];
    }
  }

  lemma SortedSpliced(nodes: seq<SKNode>, with: seq<SKNode>, c: nat, x: SKNode)
    requires Sorted(nodes) && IsSplit(nodes, x.key, c) && Canon(x.key) !in Members(nodes)
    requires Spliced(nodes, with, c, x)
    ensures Sorted(with)
  {
    MemberAtSplit(nodes, x.key, c);
    forall i, j | 1 <= i < j < |with| ensures Cmp(with[i].key, with[j].key) < 0 {
      if j == c + 1 {
        assert with[i] == nodes[i];
        CmpZero(x.key, nodes[i].key);
      } else if i == c + 1 {
        assert with[j] == nodes[j - 1];
      }
    }
  }

  /** Inserting a new key behind its split keeps the shape. */
  lemma ShapeSpliced(nodes: seq<SKNode>, with: seq<SKNode>, c: nat, x: SKNode)
    requires Shaped(nodes) && x !in nodes && 1 <= x.level <= MAX_LEVEL
    requires IsSplit(nodes, x.key, c) && Canon(x.key) !in Members(nodes)
    requires Spliced(nodes, with, c, x)
    ensures Shaped(with)
  {
    SortedSpliced(nodes, with, c, x);
  }

  /** Taking a node out of a sorted list takes out its key and keeps the shape. */
  lemma ShapeUnspliced(nodes: seq<SKNode>, with: seq<SKNode>, c: nat, x: SKNode)
    requires Shaped(with) && Spliced(nodes, with, c, x)
    ensures Shaped(nodes)
    ensures Members(nodes) == Members(with) - {Canon(x.key)}
  {
    MembersSpliced(nodes, with, c, x);
    forall i | 0 <= i < |nodes| ensures 1 <= nodes[i].level <= MAX_LEVEL {
      assert nodes[i] == with[New(c, i)];
    }
    forall i, j | 0 <= i < j < |nodes|
      ensures nodes[i] != nodes[j] && (i > 0 ==> Cmp(nodes[i].key, nodes[j].key) < 0)
    {
      assert nodes[i] == with[New(c, i)] && nodes[j] == with[New(c, j)];
    }
    forall i | 1 <= i < |nodes| ensures Canon(nodes[i].key) != Canon(x.key) {
      assert nodes[i] == with[New(c, i)];
      CmpZero(nodes[i].key, x.key);
      CmpZero(x.key, nodes[i].key);
    }
    assert with[0] == nodes[0];
  }

  lemma MaxLevelSpliced(nodes: seq<SKNode>, with: seq<SKNode>, c: nat, x: SKNode, m: nat)
    requires Spliced(nodes, with, c, x) && IsMaxLevel(nodes, m)
    ensures IsMaxLevel(with, if m < x.level then x.level else m)
  {
    if i :| 1 <= i < |nodes| && nodes[i].level == m {
      assert with[New(c, i)] == nodes[i];
    }
  }

  lemma MaxLevelUnspliced(nodes: seq<SKNode>, with: seq<SKNode>, c: nat, x: SKNode, m: nat)
    requires Spliced(nodes, with, c, x) && IsMaxLevel(with, m)
    ensures forall i :: 1 <= i < |nodes| ==> nodes[i].level <= m
    ensures x.level < m ==> IsMaxLevel(nodes, m)
  {
    forall i | 1 <= i < |nodes| ensures nodes[i].level <= m {
      assert nodes[i] == with[New(c, i)];
    }
    if i :| 1 <= i < |with| && with[i].level == m && i != c + 1 {
      assert with[i] == nodes[Old(c, i)];
    }
  }

  /** The crossing link is the same one once the node behind the position is gone. */
  lemma CrossesUnspliced(nodes: seq<SKNode>, with: seq<SKNode>, c: nat, x: SKNode, l: nat, p: nat)
    requires Spliced(nodes, with, c, x) && Crosses(with, l, p, c)
    ensures Crosses(nodes, l, p, c) && with[p] == nodes[p]
  {
    assert with[p] == nodes[p];
    forall n | p < n <= c ensures nodes[n].level <= l { assert with[n] == nodes[n]; }
  }

  /** Behind the position, only the node itself compares equal; so the test that guards the
      unlinking of a level tells whether the node reaches that level. */
  lemma UnlinkTest(nodes: seq<SKNode>, with: seq<SKNode>, c: nat, x: SKNode, l: nat, p: nat, t: Key)
    requires Spliced(nodes, with, c, x) && Crosses(nodes, l, p, c) && l < with[p].level
    requires Cmp(t, x.key) == 0
    requires forall i :: c + 1 < i < |with| ==> Cmp(t, with[i].key) < 0
    ensures var n := At(with, Next(with, p, l)); n != null && Cmp(t, n.key) == 0 <==> l < x.level
  {
    if l < x.level {
      LinkOf(nodes, with, c, x, l, p, p);
    } else {
      assert Next(with, p, l) != c + 1;
    }
  }

  // ----- The loops of `Insert` and `Remove` over the levels -----

  lemma LinkAdvance(nodes: seq<SKNode>, with: seq<SKNode>, links: Links, c: nat, p: nat, x: SKNode, l: nat)
    requires Spliced(nodes, with, c, x) && Halfway(nodes, with, links, c, l)
    requires Crosses(nodes, l, p, c) && l < x.level <= MAX_LEVEL && with[p] == nodes[p]
    ensures l < |links[p]| && l < |links[c + 1]|
    ensures Halfway(nodes, with, LinkedIn(links, c, p, x, l), c, l + 1)
  {
    assert |links[p]| == with[p].level && |links[c + 1]| == with[c + 1].level;
    var now := LinkedIn(links, c, p, x, l);
    LinkStep(nodes, with, links, c, p, x, l);
    forall m | 0 <= m < MAX_LEVEL && m != l
      ensures if m < l then LevelLinked(with, now, m) else Sparse(nodes, with, now, c, m)
    {
      assert SameLevel(links, now, m);
      LevelKept(nodes, with, links, now, c, m);
    }
  }

  lemma UnlinkAdvance(nodes: seq<SKNode>, with: seq<SKNode>, links: Links, c: nat, p: nat, x: SKNode, l: nat)
    requires Spliced(nodes, with, c, x) && Halfway(nodes, with, links, c, l + 1)
    requires Crosses(nodes, l, p, c) && l < x.level <= MAX_LEVEL && with[p] == nodes[p]
    ensures l < |links[p]| && l < |links[c + 1]|
    ensures Halfway(nodes, with, LinkedOut(links, c, p, l), c, l)
  {
    assert |links[p]| == with[p].level && |links[c + 1]| == with[c + 1].level;
    var now := LinkedOut(links, c, p, l);
    UnlinkStep(nodes, with, links, c, p, x, l);
    forall m | 0 <= m < MAX_LEVEL && m != l
      ensures if m < l then LevelLinked(with, now, m) else Sparse(nodes, with, now, c, m)
    {
      assert SameLevel(links, now, m);
      LevelKept(nodes, with, links, now, c, m);
    }
  }

  lemma AboveAdvance(nodes: seq<SKNode>, with: seq<SKNode>, links: Links, c: nat, x: SKNode, done: nat, done': nat)
    requires Spliced(nodes, with, c, x) && Halfway(nodes, with, links, c, done)
    requires done == done' || (x.level <= done && x.level <= done')
    ensures Halfway(nodes, with, links, c, done')
  {
    forall m | x.level <= m < MAX_LEVEL
      ensures if m < done' then LevelLinked(with, links, m) else Sparse(nodes, with, links, c, m)
    {
      AboveNode(nodes, with, links, c, x, m);
    }
  }

  method LinkOne(ghost with: seq<SKNode>, ghost links: Links, ghost c: nat, ghost p: nat, x: SKNode, node: SKNode, l: nat)
    requires Distinct(with) && HasLinks(with, links)
    requires p <= c && c + 1 < |with| && x == with[c + 1] && node == with[p]
    requires l < |links[p]| && l < |links[c + 1]|
    modifies x`nexts, node`nexts
    ensures HasLinks(with, LinkedIn(links, c, p, x, l))
  {
    x.nexts := x.nexts[l := node.nexts[l]];
    node.nexts := node.nexts[l := x];
  }

  method UnlinkOne(ghost with: seq<SKNode>, ghost links: Links, ghost c: nat, ghost p: nat, x: SKNode, node: SKNode, l: nat)
    requires Distinct(with) && HasLinks(with, links)
    requires p <= c && c + 1 < |with| && x == with[c + 1] && node == with[p]
    requires l < |links[p]| && l < |links[c + 1]|
    modifies node`nexts
    ensures HasLinks(with, LinkedOut(links, c, p, l))
  {
    node.nexts := node.nexts[l := x.nexts[l]];
  }

  method LinkLevels(ghost nodes: seq<SKNode>, ghost with: seq<SKNode>, ghost links: Links, ghost c: nat, ghost ps: seq<nat>,
                    x: SKNode, path: seq<SKNode?>)
    returns (ghost now: Links)
    requires Spliced(nodes, with, c, x) && Distinct(with) && HasLinks(with, links)
    requires Halfway(nodes, with, links, c, 0)
    requires x.level <= MAX_LEVEL == |path| == |ps|
    requires forall l :: 0 <= l < x.level ==> Crosses(nodes, l, ps[l], c) && path[l] == nodes[ps[l]]
    modifies (set n | n in with)`nexts
    ensures HasLinks(with, now) && Linked(with, now)
  {
    now := links;
    for l := 0 to x.level
      invariant HasLinks(with, now) && Halfway(nodes, with, now, c, l)
    {
      ghost var p := ps[l];
      assert path[l] == with[p] && x == with[c + 1];
      LinkAdvance(nodes, with, now, c, p, x, l);
      LinkOne(with, now, c, p, x, path[l], l);
      now := LinkedIn(now, c, p, x, l);
    }
    AboveAdvance(nodes, with, now, c, x, x.level, MAX_LEVEL);
  }

  method UnlinkLevels(ghost nodes: seq<SKNode>, ghost with: seq<SKNode>, ghost links: Links, ghost c: nat, ghost ps: seq<nat>,
                      t: Key, x: SKNode, path: seq<SKNode?>, top: nat)
    returns (ghost now: Links)
    requires Spliced(nodes, with, c, x) && Distinct(with) && HasLinks(with, links) && Linked(with, links)
    requires x.level <= top <= MAX_LEVEL == |path| == |ps|
    requires forall l :: 0 <= l < top ==> Crosses(nodes, l, ps[l], c) && path[l] == nodes[ps[l]]
    requires Cmp(t, x.key) == 0
    requires forall i :: c + 1 < i < |with| ==> Cmp(t, with[i].key) < 0
    modifies (set n | n in nodes)`nexts
    ensures HasLinks(with, now) && Halfway(nodes, with, now, c, 0)
  {
    now := links;
    AboveAdvance(nodes, with, now, c, x, MAX_LEVEL, top);
    for l := top downto 0
      invariant HasLinks(with, now) && Halfway(nodes, with, now, c, l)
    {
      ghost var p := ps[l];
      assert path[l] == with[p] && x == with[c + 1];
      assert LevelLinked(with, now, l) && now[p][l] == At(with, Next(with, p, l));
      UnlinkTest(nodes, with, c, x, l, p, t);
      if path[l].nexts[l] != null && Cmp(t, path[l].nexts[l].key) == 0 {
        UnlinkAdvance(nodes, with, now, c, p, x, l);
        UnlinkOne(with, now, c, p, x, path[l], l);
        now := LinkedOut(now, c, p, l);
      } else {
        AboveAdvance(nodes, with, now, c, x, l + 1, l);
      }
    }
  }

  // ----- The `prev` links around a new or a removed node -----

  method LinkBack(ghost nodes: seq<SKNode>, ghost with: seq<SKNode>, ghost c: nat, x: SKNode, cur: SKNode, after: SKNode?)
    requires Spliced(nodes, with, c, x) && Distinct(with) && BackLinked(nodes)
    requires cur == nodes[c] && after == At(nodes, c + 1)
    modifies (set n | n in with)`prev
    ensures BackLinked(with)
  {
    assert x == with[c + 1];
    if after != null {
      assert after == with[c + 2];
      after.prev := x;
    }
    x.prev := cur;
    forall i | 1 <= i < |with| && i != c + 1 && i != c + 2 ensures with[i].prev == with[i - 1] {
      assert with[i] == nodes[Old(c, i)] && with[i - 1] == nodes[Old(c, i) - 1];
    }
    assert with[c] == cur;
  }

  method UnlinkBack(ghost nodes: seq<SKNode>, ghost with: seq<SKNode>, ghost c: nat, x: SKNode, cur: SKNode, after: SKNode?)
    requires Spliced(nodes, with, c, x) && Distinct(with) && BackLinked(with)
    requires cur == nodes[c] && after == At(nodes, c + 1)
    modifies (set n | n in nodes)`prev
    ensures BackLinked(nodes)
  {
    if after != null {
      assert after == with[c + 2];
      after.prev := cur;
    }
    forall i | 1 <= i < |nodes| && i != c + 1 ensures nodes[i].prev == nodes[i - 1] {
      assert nodes[i] == with[New(c, i)] && nodes[i - 1] == with[New(c, i) - 1];
    }
  }

  ghost predicate Tall(nodes: seq<SKNode>) {
    forall i :: 0 <= i < |nodes| ==> 1 <= nodes[i].level
  }

  lemma FirstLink(nodes: seq<SKNode>, links: Links, i: nat)
    requires Linked(nodes, links) && Tall(nodes) && i < |nodes|
    ensures |links[i]| >= 1 && links[i][0] == At(nodes, i + 1)
  {
    assert LevelLinked(nodes, links, 0);
    NextIs(nodes, i, 0, i + 1);
  }

  lemma HasLinksSpliced(nodes: seq<SKNode>, with: seq<SKNode>, links: Links, links': Links, c: nat, x: SKNode)
    requires Spliced(nodes, with, c, x) && Spliced(links, links', c, x.nexts) && HasLinks(nodes, links)
    ensures HasLinks(with, links')
  {
  }

  lemma HasLinksUnspliced(nodes: seq<SKNode>, with: seq<SKNode>, links: Links, links': Links, c: nat, x: SKNode, own: seq<SKNode?>)
    requires Spliced(nodes, with, c, x) && Spliced(links, links', c, own) && HasLinks(with, links')
    ensures HasLinks(nodes, links)
  {
    forall i | 0 <= i < |nodes| ensures nodes[i].nexts == links[i] {
      assert nodes[i] == with[New(c, i)] && links[i] == links'[New(c, i)];
    }
  }

  /** The second half of `Insert`: the new node `x` is linked in behind `cur`. */
  method LinkIn(ghost nodes: seq<SKNode>, ghost with: seq<SKNode>, ghost links: Links, ghost c: nat, ghost ps: seq<nat>,
                x: SKNode, cur: SKNode, path: seq<SKNode?>)
    returns (ghost now: Links)
    requires Spliced(nodes, with, c, x) && Distinct(with) && Tall(nodes) && cur == nodes[c]
    requires HasLinks(nodes, links) && Linked(nodes, links) && BackLinked(nodes)
    requires |x.nexts| == x.level <= MAX_LEVEL == |path| == |ps|
    requires forall l :: 0 <= l < x.level ==> Crosses(nodes, l, ps[l], c) && path[l] == nodes[ps[l]]
    modifies with
    ensures HasLinks(with, now) && Linked(with, now) && BackLinked(with)
  {
    now := Splice(links, c, x.nexts);
    SpreadLinks(nodes, with, links, now, c, x, x.nexts);
    HasLinksSpliced(nodes, with, links, now, c, x);
    FirstLink(nodes, links, c);
    var after := cur.nexts[0];
    now := LinkLevels(nodes, with, now, c, ps, x, path);
    LinkBack(nodes, with, c, x, cur, after);
  }

  /** The second half of `Remove`: the node `x` behind `cur` is linked out. */
  method LinkOut(ghost nodes: seq<SKNode>, ghost with: seq<SKNode>, ghost links: Links, ghost c: nat, ghost ps: seq<nat>,
                 t: Key, x: SKNode, cur: SKNode, path: seq<SKNode?>, top: nat)
    returns (ghost now: Links)
    requires Spliced(nodes, with, c, x) && Distinct(with) && Tall(with) && cur == nodes[c]
    requires HasLinks(with, links) && Linked(with, links) && BackLinked(with)
    requires x.level <= top <= MAX_LEVEL == |path| == |ps|
    requires forall l :: 0 <= l < top ==> Crosses(nodes, l, ps[l], c) && path[l] == nodes[ps[l]]
    requires Cmp(t, x.key) == 0
    requires forall i :: c + 1 < i < |with| ==> Cmp(t, with[i].key) < 0
    modifies with
    ensures HasLinks(nodes, now) && Linked(nodes, now) && BackLinked(nodes)
  {
    assert forall i :: 0 <= i < |nodes| ==> nodes[i] == with[New(c, i)];
    FirstLink(with, links, c + 1);
    assert x.nexts == links[c + 1];
    var after := x.nexts[0];
    assert after == At(nodes, c + 1);
    ghost var all := UnlinkLevels(nodes, with, links, c, ps, t, x, path, top);
    UnlinkBack(nodes, with, c, x, cur, after);
    now := Unsplice(all, c);
    GatherLinks(nodes, with, now, all, c, x, all[c + 1]);
    HasLinksUnspliced(nodes, with, now, all, c, x, all[c + 1]);
  }

  /** The first branch of `Insert`: one node of level 1 behind the head. */
  method LinkFirst(ghost nodes: seq<SKNode>, ghost links: Links, head: SKNode, first: SKNode)
    returns (ghost with: seq<SKNode>, ghost now: Links)
    requires nodes == [head] && head.level == MAX_LEVEL && first.level == |first.nexts| == 1 && head != first
    requires HasLinks(nodes, links) && Linked(nodes, links)
    modifies head, first
    ensures with == [head, first] && Spliced(nodes, with, 0, first)
    ensures HasLinks(with, now) && Linked(with, now) && BackLinked(with)
  {
    with, now := [head, first], [links[0], first.nexts];
    SpreadLinks(nodes, with, links, now, 0, first, first.nexts);
    LinkAdvance(nodes, with, now, 0, 0, first, 0);
    LinkOne(with, now, 0, 0, first, head, 0);
    now := LinkedIn(now, 0, 0, first, 0);
    AboveAdvance(nodes, with, now, 0, first, 1, MAX_LEVEL);
    first.prev := head;
  }

  class Skiplist {
    const head: SKNode
    var count: nat
    var curMaxLevel: nat
    /** The level-0 chain, the head first, and the `nexts` of its nodes. */
    ghost var nodes: seq<SKNode>
    ghost var links: Links

    ghost predicate Valid()
      reads this, nodes
    {
      && Shaped(nodes) && nodes[0] == head
      && HasLinks(nodes, links) && Linked(nodes, links) && BackLinked(nodes)
      && count == |nodes| - 1 && curMaxLevel <= MAX_LEVEL && IsMaxLevel(nodes, curMaxLevel)
    }

    ghost function Elements(): set<Key>
      reads this
    {
      Members(nodes)
    }

    constructor ()
      ensures Valid() && nodes == [head] && fresh(head) && head.level == 32
      ensures Elements() == {}
    {
      var h := new SKNode(Key(-0x8000_0000_0000_0000, []), MAX_LEVEL);
      head, count, curMaxLevel, nodes, links := h, 0, 0, [h], [h.nexts];
    }

    /** `cur` stands just before the place of `t`: its successor decides membership. */
    ghost predicate IsLast(t: Key, cur: SKNode, c: nat)
      reads this, cur
    {
      && |cur.nexts| >= 1 && cur.nexts[0] == At(nodes, c + 1)
      && (Canon(t) in Elements() <==> cur.nexts[0] != null && Cmp(t, cur.nexts[0].key) == 0)
    }

    /** The inner loop of both `Find`s: left to right along level `l`. */
    method SearchLevel(t: Key, l: nat, from: SKNode, ghost at: nat) returns (cur: SKNode, ghost c: nat)
      requires Valid() && at < |nodes| && from == nodes[at] && l < from.level
      requires at > 0 ==> Cmp(t, from.key) > 0
      ensures IsPred(nodes, t, l, c) && cur == nodes[c]
    {
      cur, c := from, at;
      assert LevelLinked(nodes, links, l);
      while cur.nexts[l] != null && Cmp(t, cur.nexts[l].key) > 0
        invariant c < |nodes| && cur == nodes[c] && l < cur.level
        invariant c > 0 ==> Cmp(t, cur.key) > 0
        decreases |nodes| - c
      {
        assert links[c][l] == At(nodes, Next(nodes, c, l));
        c := Next(nodes, c, l);
        cur := cur.nexts[l];
      }
      assert links[c][l] == At(nodes, Next(nodes, c, l));
    }

    /** `Find` with a path: the last node smaller than `t`, from any start level. */
    method FindPath(t: Key, start: nat)
      returns (cur: SKNode, path: seq<SKNode?>, ghost c: nat, ghost ps: seq<nat>)
      requires Valid() && start < MAX_LEVEL
      ensures IsSplit(nodes, t, c) && cur == nodes[c]
      ensures |path| == |ps| == MAX_LEVEL
      ensures forall l :: 0 <= l <= start ==> Crosses(nodes, l, ps[l], c) && path[l] == nodes[ps[l]]
      ensures IsLast(t, cur, c)
    {
      cur, c := head, 0;
      path, ps := seq(MAX_LEVEL, _ => null), seq(MAX_LEVEL, _ => 0);
      for l := start + 1 downto 0
        invariant c < |nodes| && cur == nodes[c] && l <= cur.level
        invariant c > 0 ==> Cmp(t, cur.key) > 0
        invariant |path| == |ps| == MAX_LEVEL
        invariant forall m :: l <= m <= start ==> IsPred(nodes, t, m, ps[m]) && path[m] == nodes[ps[m]]
        invariant l <= start ==> ps[l] == c
      {
        cur, c := SearchLevel(t, l, cur, c);
        path, ps := path[l := cur], ps[l := c];
      }
      NextIs(nodes, c, 0, c + 1);
      SplitAt(nodes, t, c);
      MemberAtSplit(nodes, t, c);
      FirstLink(nodes, links, c);
      forall l | 0 <= l <= start ensures Crosses(nodes, l, ps[l], c) {
        PredCrosses(nodes, t, l, ps[l], c);
      }
    }

    /** `Find` without a path. */
    method Find(t: Key, start: nat) returns (cur: SKNode, ghost c: nat)
      requires Valid() && start < MAX_LEVEL
      ensures cur in nodes && (cur == head || KeyBefore(cur.key, t))
      ensures |cur.nexts| >= 1 && (cur.nexts[0] == null || !KeyBefore(cur.nexts[0].key, t))
      ensures forall i :: 1 <= i < |nodes| ==> (KeyBefore(nodes[i].key, t) <==> i <= c)
      ensures IsSplit(nodes, t, c) && cur == nodes[c] && IsLast(t, cur, c)
    {
      cur, c := head, 0;
      for l := start + 1 downto 0
        invariant c < |nodes| && cur == nodes[c] && l <= cur.level
        invariant c > 0 ==> Cmp(t, cur.key) > 0
        invariant l == 0 ==> IsPred(nodes, t, 0, c)
      {
        cur, c := SearchLevel(t, l, cur, c);
      }
      NextIs(nodes, c, 0, c + 1);
      SplitAt(nodes, t, c);
      MemberAtSplit(nodes, t, c);
      FirstLink(nodes, links, c);
      SplitMeans(nodes, t, c);
    }

    method Contains(t: Key) returns (found: bool)
      requires Valid()
      ensures found <==> Canon(t) in Elements()
    {
      FirstLink(nodes, links, 0);
      if head.nexts[0] == null { return false; }
      HeadLevels(nodes, curMaxLevel, 0);
      NextIs(nodes, 0, 0, 1);
      var node, c := Find(t, curMaxLevel - 1);
      found := node.nexts[0] != null && Cmp(t, node.nexts[0].key) == 0;
    }

    /** The counters after a node was linked in or out. */
    method Install(ghost now: seq<SKNode>, ghost nowLinks: Links, n: nat, m: nat)
      requires Shaped(now) && now[0] == head
      requires HasLinks(now, nowLinks) && Linked(now, nowLinks) && BackLinked(now)
      requires n == |now| - 1 && m <= MAX_LEVEL && IsMaxLevel(now, m)
      modifies this
      ensures Valid() && nodes == now && links == nowLinks
    {
      count, curMaxLevel, nodes, links := n, m, now, nowLinks;
    }

    /** The first node of an empty list gets level 1. */
    method InsertFirst(t: Key)
      requires Valid() && |nodes| == 1
      modifies this, nodes
      ensures Valid() && Grown(old(nodes), nodes, 0, t, 1) && fresh(nodes[1])
      ensures old(Elements()) == {} && Elements() == {Canon(t)}
      ensures forall n :: n in nodes ==> n in old(nodes) || fresh(n)
    {
      var first := new SKNode(t, 1);
      ghost var with, now := LinkFirst(nodes, links, head, first);
      MembersSpliced(nodes, with, 0, first);
      Install(with, now, count + 1, 1);
    }

    method InsertBehind(t: Key, level: nat, cur: SKNode, path: seq<SKNode?>, ghost c: nat, ghost ps: seq<nat>)
      requires Valid() && 1 <= level <= MAX_LEVEL == |path| == |ps|
      requires IsSplit(nodes, t, c) && cur == nodes[c] && Canon(t) !in Elements()
      requires forall l :: 0 <= l < level ==> Crosses(nodes, l, ps[l], c) && path[l] == nodes[ps[l]]
      modifies this, nodes
      ensures Valid() && Grown(old(nodes), nodes, c, t, level) && fresh(nodes[c + 1])
      ensures Elements() == old(Elements()) + {Canon(t)}
      ensures forall n :: n in nodes ==> n in old(nodes) || fresh(n)
    {
      var x := new SKNode(t, level);
      ghost var with := Splice(nodes, c, x);
      ShapeSpliced(nodes, with, c, x);
      MembersSpliced(nodes, with, c, x);
      MaxLevelSpliced(nodes, with, c, x, curMaxLevel);
      ghost var now := LinkIn(nodes, with, links, c, ps, x, cur, path);
      Install(with, now, count + 1, if curMaxLevel < level then level else curMaxLevel);
    }

    /** `level` stands for the outcome of the coin flips of `GenRandomLevel`. */
    method Insert(t: Key, level: nat) returns (added: bool, ghost c: nat)
      requires Valid() && 1 <= level <= MAX_LEVEL
      modifies this, nodes
      ensures Valid()
      ensures added <==> Canon(t) !in old(Elements())
      ensures Elements() == old(Elements()) + {Canon(t)}
      ensures !added ==> nodes == old(nodes)
      ensures added ==> Grown(old(nodes), nodes, c, t, if old(count) == 0 then 1 else level) && fresh(nodes[c + 1])
      ensures forall n :: n in nodes ==> n in old(nodes) || fresh(n)
    {
      FirstLink(nodes, links, 0);
      if head.nexts[0] == null {
        InsertFirst(t);
        return true, 0;
      }
      var cur, path, c', ps := FindPath(t, level - 1);
      c := c';
      if cur.nexts[0] != null && Cmp(t, cur.nexts[0].key) == 0 {
        return false, c;
      }
      added := true;
      InsertBehind(t, level, cur, path, c, ps);
    }

    /** The level-lowering loop of `Remove`; that the counter is not 0 is tested first. */
    method LowerLevel(ghost now: seq<SKNode>, ghost nowLinks: Links, start: nat) returns (m: nat)
      requires Shaped(now) && HasLinks(now, nowLinks) && Linked(now, nowLinks) && now[0] == head
      requires start <= MAX_LEVEL && forall i :: 1 <= i < |now| ==> now[i].level <= start
      ensures m <= MAX_LEVEL && IsMaxLevel(now, m)
    {
      m := start;
      assert now[0].nexts == nowLinks[0] && |nowLinks[0]| == MAX_LEVEL;
      while m > 0 && head.nexts[m - 1] == null
        invariant m <= MAX_LEVEL
        invariant forall i :: 1 <= i < |now| ==> now[i].level <= m
      {
        assert LevelLinked(now, nowLinks, m - 1);
        m := m - 1;
      }
      assert m > 0 ==> LevelLinked(now, nowLinks, m - 1);
    }

    method RemoveBehind(t: Key, cur: SKNode, path: seq<SKNode?>, ghost c: nat, ghost ps: seq<nat>)
      requires Valid() && |path| == |ps| == MAX_LEVEL
      requires IsSplit(nodes, t, c) && cur == nodes[c] && c + 1 < |nodes| && Cmp(t, nodes[c + 1].key) == 0
      requires forall l :: 0 <= l < curMaxLevel ==> Crosses(nodes, l, ps[l], c) && path[l] == nodes[ps[l]]
      modifies this, nodes
      ensures Valid() && Spliced(nodes, old(nodes), c, old(nodes)[c + 1])
      ensures Elements() == old(Elements()) - {Canon(t)}
      ensures forall n :: n in nodes ==> n in old(nodes)
    {
      hide Linked, BackLinked, Members, Cmp;
      FirstLink(nodes, links, c);
      var del := cur.nexts[0];
      ghost var without := Unsplice(nodes, c);
      MemberAtSplit(nodes, t, c);
      CmpZero(t, del.key);
      ShapeUnspliced(without, nodes, c, del);
      MaxLevelUnspliced(without, nodes, c, del, curMaxLevel);
      forall l | 0 <= l < curMaxLevel ensures Crosses(without, l, ps[l], c) && path[l] == without[ps[l]] {
        CrossesUnspliced(without, nodes, c, del, l, ps[l]);
      }
      ghost var now := LinkOut(without, nodes, links, c, ps, t, del, cur, path, curMaxLevel);
      var m := curMaxLevel;
      if del.level == curMaxLevel {
        m := LowerLevel(without, now, curMaxLevel);
      }
      Install(without, now, count - 1, m);
    }

    method Remove(t: Key) returns (removed: bool, ghost c: nat)
      requires Valid()
      modifies this, nodes
      ensures Valid()
      ensures removed <==> Canon(t) in old(Elements())
      ensures Elements() == old(Elements()) - {Canon(t)}
      ensures !removed ==> nodes == old(nodes)
      ensures removed ==> c + 1 < |old(nodes)| && Spliced(nodes, old(nodes), c, old(nodes)[c + 1])
      ensures forall n :: n in nodes ==> n in old(nodes)
    {
      FirstLink(nodes, links, 0);
      c := 0;
      if head.nexts[0] == null { return false, 0; }
      HeadLevels(nodes, curMaxLevel, 0);
      NextIs(nodes, 0, 0, 1);
      var cur, path, c', ps := FindPath(t, curMaxLevel - 1);
      c := c';
      if cur.nexts[0] == null || Cmp(t, cur.nexts[0].key) != 0 { return false, c; }
      RemoveBehind(t, cur, path, c, ps);
      removed := true;
    }

    method Clear()
      requires Valid()
      modifies this, nodes
      ensures Valid() && nodes == [head] && Elements() == {}
    {
      if count == 0 { return; }
      for l := 0 to MAX_LEVEL
        invariant |head.nexts| == MAX_LEVEL && forall m :: 0 <= m < l ==> head.nexts[m] == null
      {
        head.nexts := head.nexts[l := null];
      }
      Install([head], [head.nexts], 0, 0);
    }

    /** `GatherAllNodes`: the level-0 chain in order, with or without the head. */
    method GatherAllNodes(includeHead: bool) returns (gathered: seq<SKNode>)
      requires Valid()
      ensures gathered == if includeHead then nodes else nodes[1..]
      ensures !includeHead ==> forall i, j :: 0 <= i < j < |gathered| ==>
        && gathered[i].key.score <= gathered[j].key.score
        && (gathered[i].key.score == gathered[j].key.score && NulFree(gathered[i].key.data) && NulFree(gathered[j].key.data)
            ==> DataBefore(gathered[i].key.data, gathered[j].key.data))
    {
      InOrder(nodes);
      gathered := [];
      FirstLink(nodes, links, 0);
      var cur: SKNode? := if includeHead then head else head.nexts[0];
      ghost var from := if includeHead then 0 else 1;
      ghost var i := from;
      while cur != null
        invariant from <= i <= |nodes| && cur == At(nodes, i) && gathered == nodes[from..i]
        decreases |nodes| - i
      {
        FirstLink(nodes, links, i);
        gathered := gathered + [cur];
        cur := cur.nexts[0];
        i := i + 1;
      }
    }

    /** `End`: the last node, null if there is none. */
    method End() returns (last: SKNode?)
      requires Valid()
      ensures last == if |nodes| == 1 then null else nodes[|nodes| - 1]
      ensures last != null ==> forall i :: 1 <= i < |nodes| ==> nodes[i].key.score <= last.key.score
    {
      hide Cmp, Sorted, BackLinked;
      FirstLink(nodes, links, 0);
      if head.nexts[0] == null { return null; }
      var cur := head;
      ghost var c := 0;
      for l := MAX_LEVEL downto 0
        invariant c < |nodes| && cur == nodes[c] && l <= cur.level
        invariant l == 0 ==> Next(nodes, c, 0) == |nodes|
      {
        assert LevelLinked(nodes, links, l);
        while cur.nexts[l] != null
          invariant c < |nodes| && cur == nodes[c] && l < cur.level
          decreases |nodes| - c
        {
          assert links[c][l] == At(nodes, Next(nodes, c, l));
          c := Next(nodes, c, l);
          cur := cur.nexts[l];
        }
        assert links[c][l] == At(nodes, Next(nodes, c, l));
      }
      NextIs(nodes, c, 0, c + 1);
      LastIsLargest(nodes);
      last := cur;
    }
  }

  // ----- Whole runs against a plain finite set -----

  datatype Op = InsertOp(t: Key, level: nat) | RemoveOp(t: Key) | ContainsOp(t: Key) | ClearOp

  /** What a finite set of canonical keys does and answers. */
  function SetStep(s: set<Key>, op: Op): (set<Key>, bool) {
    match op
    case InsertOp(t, _) => (s + {Canon(t)}, Canon(t) !in s)
    case RemoveOp(t) => (s - {Canon(t)}, Canon(t) in s)
    case ContainsOp(t) => (s, Canon(t) in s)
    case ClearOp => ({}, true)
  }

  function SetRun(ops: seq<Op>): (set<Key>, seq<bool>) {
    if ops == [] then ({}, [])
    else
      var (s, answers) := SetRun(ops[..|ops| - 1]);
      var (s', a) := SetStep(s, ops[|ops| - 1]);
      (s', answers + [a])
  }

  method Apply(list: Skiplist, op: Op) returns (answer: bool)
    requires list.Valid() && (op.InsertOp? ==> 1 <= op.level <= MAX_LEVEL)
    modifies list, list.nodes
    ensures list.Valid() && (list.Elements(), answer) == SetStep(old(list.Elements()), op)
    ensures forall n :: n in list.nodes ==> n in old(list.nodes) || fresh(n)
  {
    answer := true;
    match op {
      case InsertOp(t, level) => ghost var c; answer, c := list.Insert(t, level);
      case RemoveOp(t) => ghost var c; answer, c := list.Remove(t);
      case ContainsOp(t) => answer := list.Contains(t);
      case ClearOp => list.Clear();
    }
  }

  /** Every run, for every choice of levels, keeps the structure and answers as the set does. */
  method Run(ops: seq<Op>) returns (list: Skiplist, answers: seq<bool>)
    requires forall i :: 0 <= i < |ops| && ops[i].InsertOp? ==> 1 <= ops[i].level <= MAX_LEVEL
    ensures list.Valid() && (list.Elements(), answers) == SetRun(ops)
  {
    list := new Skiplist();
    answers := [];
    for i := 0 to |ops|
      invariant list.Valid() && fresh(list) && forall n :: n in list.nodes ==> fresh(n)
      invariant (list.Elements(), answers) == SetRun(ops[..i])
    {
      assert ops[..i + 1][..i] == ops[..i];
      assert forall k :: 0 <= k < |list.nodes| ==> list.nodes[k] in list.nodes;
      var a := Apply(list, ops[i]);
      answers := answers + [a];
    }
    assert ops[..|ops|] == ops;
  }
}
