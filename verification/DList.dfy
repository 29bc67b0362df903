/** The blocked deque of src/dlist.cpp: a doubly linked chain of 128-slot blocks. */
module DLists {
  import opened ByteStrings

  const BLOCK_SIZE: nat := 128

  class Node {
    var prev: Node?
    var next: Node?
    const data: array<Bytes>
    var occupied: nat

    constructor ()
      ensures prev == null && next == null && occupied == 0 && data.Length == BLOCK_SIZE && fresh(data)
    {
      prev, next, occupied := null, null, 0;
      data := new Bytes[BLOCK_SIZE](_ => []);
    }
  }

  // ----- The shape: blocks in a row, cells numbered through -----

  ghost predicate Apart(chain: seq<Node>) {
    && (forall i :: 0 <= i < |chain| ==> chain[i].data.Length == BLOCK_SIZE)
    && (forall i, j :: 0 <= i < j < |chain| ==> chain[i] != chain[j] && chain[i].data != chain[j].data)
  }

  ghost predicate ChainLinked(chain: seq<Node>)
    reads (set n | n in chain)`prev, (set n | n in chain)`next
  {
    && |chain| >= 1 && chain[0].prev == null && chain[|chain| - 1].next == null
    && (forall i {:trigger chain[i].prev} :: 1 <= i < |chain| ==> chain[i].prev == chain[i - 1])
    && (forall i {:trigger chain[i].next} :: 0 <= i < |chain| - 1 ==> chain[i].next == chain[i + 1])
  }

  /** Number of cells of block `i` among the `len` cells from `start` on. */
  ghost function Share(i: nat, start: nat, len: nat): nat {
    var lo := if start < BLOCK_SIZE * i then BLOCK_SIZE * i else start;
    var hi := if start + len < BLOCK_SIZE * i + BLOCK_SIZE then start + len else BLOCK_SIZE * i + BLOCK_SIZE;
    if lo < hi then hi - lo else 0
  }

  ghost predicate Occupied(chain: seq<Node>, start: nat, len: nat)
    reads (set n | n in chain)`occupied
  {
    forall i {:trigger chain[i].occupied} :: 0 <= i < |chain| ==> chain[i].occupied == Share(i, start, len)
  }

  /** What the counters of the first `n` blocks add up to. */
  ghost function SumOccupied(chain: seq<Node>, n: nat): nat
    requires n <= |chain|
    reads (set m | m in chain)`occupied
  {
    if n == 0 then 0 else SumOccupied(chain, n - 1) + chain[n - 1].occupied
  }

  lemma {:induction false} SumIsBefore(chain: seq<Node>, n: nat, start: nat, len: nat)
    requires n <= |chain| && Occupied(chain, start, len)
    ensures SumOccupied(chain, n) == if BLOCK_SIZE * n <= start then 0 else if BLOCK_SIZE * n - start < len then BLOCK_SIZE * n - start else len
  {
    if n > 0 {
      SumIsBefore(chain, n - 1, start, len);
      assert chain[n - 1].occupied == Share(n - 1, start, len);
    }
  }

  /** The cells from `start` on hold `s`. */
  ghost predicate Stores(chain: seq<Node>, start: nat, s: seq<Bytes>)
    requires Apart(chain)
    reads set n | n in chain :: n.data
  {
    forall i, j :: 0 <= i < |chain| && 0 <= j < BLOCK_SIZE && start <= BLOCK_SIZE * i + j < start + |s| ==>
      chain[i].data[j] == s[BLOCK_SIZE * i + j - start]
  }

  // ----- One block more at either end -----

  lemma PrependKeeps(chain: seq<Node>, node: Node, start: nat, s: seq<Bytes>)
    requires Apart(chain) && Apart([node] + chain)
    requires Occupied(chain, start, |s|) && Stores(chain, start, s) && node.occupied == 0
    ensures Occupied([node] + chain, start + BLOCK_SIZE, |s|) && Stores([node] + chain, start + BLOCK_SIZE, s)
  {
    var now := [node] + chain;
    forall i | 0 <= i < |now| ensures now[i].occupied == Share(i, start + BLOCK_SIZE, |s|) {
      assert i > 0 ==> now[i] == chain[i - 1];
    }
    forall i, j | 0 <= i < |now| && 0 <= j < BLOCK_SIZE && start + BLOCK_SIZE <= BLOCK_SIZE * i + j < start + BLOCK_SIZE + |s|
      ensures now[i].data[j] == s[BLOCK_SIZE * i + j - start - BLOCK_SIZE]
    {
      assert now[i] == chain[i - 1];
      assert BLOCK_SIZE * (i - 1) + j == BLOCK_SIZE * i + j - BLOCK_SIZE;
    }
  }

  lemma AppendKeeps(chain: seq<Node>, node: Node, start: nat, s: seq<Bytes>)
    requires Apart(chain) && Apart(chain + [node]) && start + |s| <= BLOCK_SIZE * |chain|
    requires Occupied(chain, start, |s|) && Stores(chain, start, s) && node.occupied == 0
    ensures Occupied(chain + [node], start, |s|) && Stores(chain + [node], start, s)
  {
    var now := chain + [node];
    forall i | 0 <= i < |now| ensures now[i].occupied == Share(i, start, |s|) {
      assert i < |chain| ==> now[i] == chain[i];
    }
    forall i, j | 0 <= i < |now| && 0 <= j < BLOCK_SIZE && start <= BLOCK_SIZE * i + j < start + |s|
      ensures now[i].data[j] == s[BLOCK_SIZE * i + j - start]
    {
      assert now[i] == chain[i];
    }
  }

  lemma ShareShift(i: nat, start: nat, len: nat)
    requires i >= 1 && start >= BLOCK_SIZE
    ensures Share(i, start, len) == Share(i - 1, start - BLOCK_SIZE, len)
  {
  }

  /** One free block less in front. */
  lemma TailKeeps(chain: seq<Node>, start: nat, s: seq<Bytes>)
    requires |chain| >= 2 && Apart(chain) && start >= BLOCK_SIZE && Occupied(chain, start, |s|) && Stores(chain, start, s)
    ensures Apart(chain[1..]) && Occupied(chain[1..], start - BLOCK_SIZE, |s|) && Stores(chain[1..], start - BLOCK_SIZE, s)
  {
    hide Share;
    var now := chain[1..];
    forall i | 0 <= i < |now| ensures now[i].occupied == Share(i, start - BLOCK_SIZE, |s|) {
      assert now[i] == chain[i + 1];
      ShareShift(i + 1, start, |s|);
    }
    forall i, j | 0 <= i < |now| && 0 <= j < BLOCK_SIZE && start - BLOCK_SIZE <= BLOCK_SIZE * i + j < start - BLOCK_SIZE + |s|
      ensures now[i].data[j] == s[BLOCK_SIZE * i + j - (start - BLOCK_SIZE)]
    {
      assert now[i] == chain[i + 1];
      assert BLOCK_SIZE * (i + 1) + j - start == BLOCK_SIZE * i + j - (start - BLOCK_SIZE);
    }
  }

  method UnlinkFront(ghost chain: seq<Node>, second: Node)
    requires |chain| >= 2 && Apart(chain) && ChainLinked(chain) && second == chain[1]
    modifies second`prev
    ensures ChainLinked(chain[1..])
  {
    second.prev := null;
    ghost var now := chain[1..];
    assert forall i :: 0 <= i < |now| ==> now[i] == chain[i + 1];
  }

  method UnlinkBack(ghost chain: seq<Node>, last: Node)
    requires |chain| >= 2 && Apart(chain) && ChainLinked(chain) && last == chain[|chain| - 2]
    modifies last`next
    ensures ChainLinked(chain[..|chain| - 1])
  {
    last.next := null;
  }

  method LinkFront(ghost chain: seq<Node>, head: Node) returns (node: Node)
    requires Apart(chain) && ChainLinked(chain) && head == chain[0]
    modifies head`prev
    ensures fresh(node) && fresh(node.data) && node.occupied == 0
    ensures Apart([node] + chain) && ChainLinked([node] + chain)
  {
    node := new Node();
    node.next := head;
    head.prev := node;
    ghost var now := [node] + chain;
    assert forall i :: 1 <= i < |now| ==> now[i] == chain[i - 1];
  }

  method LinkBack(ghost chain: seq<Node>, tail: Node) returns (node: Node)
    requires Apart(chain) && ChainLinked(chain) && tail == chain[|chain| - 1]
    modifies tail`next
    ensures fresh(node) && fresh(node.data) && node.occupied == 0
    ensures Apart(chain + [node]) && ChainLinked(chain + [node])
  {
    node := new Node();
    node.prev := tail;
    tail.next := node;
  }

  // ----- One cell more or less at either end -----

  lemma ShareLeft(i: nat, n: nat, start: nat, len: nat)
    requires start > 0 && BLOCK_SIZE * n <= start - 1 < BLOCK_SIZE * n + BLOCK_SIZE
    ensures Share(i, start - 1, len + 1) == Share(i, start, len) + if i == n then 1 else 0
  {
  }

  lemma ShareRight(i: nat, n: nat, start: nat, len: nat)
    requires BLOCK_SIZE * n <= start + len < BLOCK_SIZE * n + BLOCK_SIZE
    ensures Share(i, start, len + 1) == Share(i, start, len) + if i == n then 1 else 0
  {
  }

  method WriteLeft(ghost chain: seq<Node>, ghost start: nat, ghost s: seq<Bytes>, ghost n: nat, node: Node, ptr: nat, val: Bytes)
    requires Apart(chain) && n < |chain| && node == chain[n] && ptr < BLOCK_SIZE && BLOCK_SIZE * n + ptr == start
    requires Occupied(chain, start + 1, |s|) && Stores(chain, start + 1, s)
    modifies node.data, node`occupied
    ensures Occupied(chain, start, |s| + 1) && Stores(chain, start, [val] + s)
  {
    node.data[ptr] := val;
    node.occupied := node.occupied + 1;
    forall i | 0 <= i < |chain| ensures chain[i].occupied == Share(i, start, |s| + 1) {
      ShareLeft(i, n, start + 1, |s|);
    }
    forall i, j | 0 <= i < |chain| && 0 <= j < BLOCK_SIZE && start <= BLOCK_SIZE * i + j < start + 1 + |s|
      ensures chain[i].data[j] == ([val] + s)[BLOCK_SIZE * i + j - start]
    {
      assert BLOCK_SIZE * i + j == start ==> i == n && j == ptr;
    }
  }

  method WriteRight(ghost chain: seq<Node>, ghost start: nat, ghost s: seq<Bytes>, ghost n: nat, node: Node, ptr: nat, val: Bytes)
    requires Apart(chain) && n < |chain| && node == chain[n] && ptr < BLOCK_SIZE && BLOCK_SIZE * n + ptr == start + |s|
    requires Occupied(chain, start, |s|) && Stores(chain, start, s)
    modifies node.data, node`occupied
    ensures Occupied(chain, start, |s| + 1) && Stores(chain, start, s + [val])
  {
    node.data[ptr] := val;
    node.occupied := node.occupied + 1;
    forall i | 0 <= i < |chain| ensures chain[i].occupied == Share(i, start, |s| + 1) {
      ShareRight(i, n, start, |s|);
    }
    forall i, j | 0 <= i < |chain| && 0 <= j < BLOCK_SIZE && start <= BLOCK_SIZE * i + j < start + |s| + 1
      ensures chain[i].data[j] == (s + [val])[BLOCK_SIZE * i + j - start]
    {
      assert BLOCK_SIZE * i + j == start + |s| ==> i == n && j == ptr;
    }
  }

  method DropLeft(ghost chain: seq<Node>, ghost start: nat, ghost s: seq<Bytes>, ghost n: nat, node: Node)
    requires Apart(chain) && n < |chain| && node == chain[n] && BLOCK_SIZE * n <= start < BLOCK_SIZE * n + BLOCK_SIZE
    requires s != [] && Occupied(chain, start, |s|) && Stores(chain, start, s)
    modifies node`occupied
    ensures Occupied(chain, start + 1, |s| - 1) && Stores(chain, start + 1, s[1..])
  {
    ShareLeft(n, n, start + 1, |s| - 1);
    node.occupied := node.occupied - 1;
    forall i | 0 <= i < |chain| ensures chain[i].occupied == Share(i, start + 1, |s| - 1) {
      ShareLeft(i, n, start + 1, |s| - 1);
    }
  }

  method DropRight(ghost chain: seq<Node>, ghost start: nat, ghost s: seq<Bytes>, ghost n: nat, node: Node)
    requires Apart(chain) && n < |chain| && node == chain[n] && BLOCK_SIZE * n <= start + |s| - 1 < BLOCK_SIZE * n + BLOCK_SIZE
    requires s != [] && Occupied(chain, start, |s|) && Stores(chain, start, s)
    modifies node`occupied
    ensures Occupied(chain, start, |s| - 1) && Stores(chain, start, s[..|s| - 1])
  {
    ShareRight(n, n, start, |s| - 1);
    node.occupied := node.occupied - 1;
    forall i | 0 <= i < |chain| ensures chain[i].occupied == Share(i, start, |s| - 1) {
      ShareRight(i, n, start, |s| - 1);
    }
  }

  method Overwrite(ghost chain: seq<Node>, ghost start: nat, ghost s: seq<Bytes>, ghost n: nat, node: Node, ptr: nat, ghost idx: nat, val: Bytes)
    requires Apart(chain) && n < |chain| && node == chain[n] && ptr < BLOCK_SIZE
    requires idx < |s| && BLOCK_SIZE * n + ptr == start + idx && Stores(chain, start, s)
    modifies node.data
    ensures Stores(chain, start, s[idx := val])
  {
    node.data[ptr] := val;
    forall i, j | 0 <= i < |chain| && 0 <= j < BLOCK_SIZE && start <= BLOCK_SIZE * i + j < start + |s|
      ensures chain[i].data[j] == s[idx := val][BLOCK_SIZE * i + j - start]
    {
      assert BLOCK_SIZE * i + j == BLOCK_SIZE * n + ptr ==> i == n && j == ptr;
    }
  }

  lemma EmptyAnywhere(chain: seq<Node>, start: nat, start': nat)
    requires Occupied(chain, start, 0)
    ensures Occupied(chain, start', 0)
  {
    assert forall i: nat :: Share(i, start, 0) == Share(i, start', 0);
  }

  lemma StoresNothing(chain: seq<Node>, start: nat)
    requires Apart(chain)
    ensures Stores(chain, start, [])
  {
  }

  /** A position in the chain: a block, an offset in it (-1 for a null pointer), and the block's number. */
  datatype Iterator = Iterator(node: Node, ptr: int, ghost at: nat)

  class DList {
    var begin: Iterator
    var end: Iterator
    var head: Node
    var tail: Node
    var len: nat
    var nNodes: nat
    ghost var chain: seq<Node>
    ghost var Contents: seq<Bytes>

    ghost predicate Shaped()
      reads this, chain
    {
      && Apart(chain) && ChainLinked(chain)
      && nNodes == |chain| && head == chain[0] && tail == chain[|chain| - 1]
      && begin.at < |chain| && begin.node == chain[begin.at]
      && end.at < |chain| && end.node == chain[end.at]
    }

    /** Number of the first cell in use. */
    ghost function Start(): nat
      reads this
    {
      if begin.ptr < 0 then 0 else BLOCK_SIZE * begin.at + begin.ptr
    }

    ghost predicate Cursors()
      reads this
    {
      && len == |Contents|
      && (len == 0 ==> begin.ptr == end.ptr == -1)
      && (len > 0 ==> 0 <= begin.ptr < BLOCK_SIZE && 0 <= end.ptr < BLOCK_SIZE && BLOCK_SIZE * end.at + end.ptr == Start() + len - 1)
    }

    ghost predicate Valid()
      reads this, chain, set n | n in chain :: n.data
    {
      Shaped() && Cursors() && Occupied(chain, Start(), len) && Stores(chain, Start(), Contents)
    }

    /** The length is the sum of the counters over the whole chain. */
    lemma LenIsSum()
      requires Valid()
      ensures len == SumOccupied(chain, |chain|)
    {
      SumIsBefore(chain, |chain|, Start(), len);
    }

    constructor ()
      ensures Valid() && Contents == [] && nNodes == 2 && forall n :: n in chain ==> n.data.Length == 128
      ensures fresh(chain) && forall n :: n in chain ==> fresh(n.data)
    {
      var node1 := new Node();
      var node2 := new Node();
      node1.next := node2;
      node2.prev := node1;
      begin, end := Iterator(node1, -1, 0), Iterator(node2, -1, 1);
      head, tail, len, nNodes := node1, node2, 0, 2;
      chain, Contents := [node1, node2], [];
    }

    /** Moves the cursors; `start` is the number of the first cell then. */
    method Settle(first: Iterator, last: Iterator, n: nat, ghost start: nat, ghost s: seq<Bytes>)
      requires Shaped() && n == |s| && Occupied(chain, start, n) && Stores(chain, start, s)
      requires first.at < |chain| && first.node == chain[first.at] && last.at < |chain| && last.node == chain[last.at]
      requires if n == 0 then first.ptr == last.ptr == -1 else
        && 0 <= first.ptr < BLOCK_SIZE && 0 <= last.ptr < BLOCK_SIZE
        && start == BLOCK_SIZE * first.at + first.ptr && BLOCK_SIZE * last.at + last.ptr == start + n - 1
      modifies this
      ensures Valid() && Contents == s && chain == old(chain) && nNodes == old(nNodes)
    {
      hide Occupied, Stores, ChainLinked;
      if n == 0 {
        EmptyAnywhere(chain, start, 0);
        StoresNothing(chain, 0);
      }
      ghost var at := if n == 0 then 0 else start;
      assert Occupied(chain, at, n) && Stores(chain, at, s);
      begin, end, len, Contents := first, last, n, s;
      assert Occupied(chain, at, n);
      assert Stores(chain, at, s);
      assert Start() == at;
    }

    /** Installs a chain that has one block more at either end. */
    method Rechain(first: Node, last: Node, ghost now: seq<Node>, ghost shift: nat)
      requires Cursors() && len > 0
      requires Apart(now) && ChainLinked(now) && |now| == nNodes + 1 && first == now[0] && last == now[|now| - 1]
      requires begin.at + shift < |now| && begin.node == now[begin.at + shift]
      requires end.at + shift < |now| && end.node == now[end.at + shift]
      requires Occupied(now, Start() + BLOCK_SIZE * shift, len) && Stores(now, Start() + BLOCK_SIZE * shift, Contents)
      modifies this
      ensures Valid() && Contents == old(Contents) && chain == now
      ensures begin == old(begin).(at := old(begin).at + shift) && end == old(end).(at := old(end).at + shift)
    {
      hide Occupied, Stores, ChainLinked;
      ghost var at := Start() + BLOCK_SIZE * shift;
      head, tail, nNodes := first, last, nNodes + 1;
      assert ChainLinked(now) && Occupied(now, at, len) && Stores(now, at, Contents);
      begin, end, chain := begin.(at := begin.at + shift), end.(at := end.at + shift), now;
      assert ChainLinked(now) && Occupied(now, at, len) && Stores(now, at, Contents);
      assert Start() == at;
    }

    method GrowLeft()
      requires Valid() && begin.at == 0 && len > 0
      modifies this, chain
      ensures Valid() && Contents == old(Contents) && begin == old(begin).(at := 1)
      ensures |chain| >= 1 && chain == [chain[0]] + old(chain) && fresh(chain[0]) && fresh(chain[0].data)
    {
      var node := LinkFront(chain, head);
      PrependKeeps(chain, node, Start(), Contents);
      Rechain(node, tail, [node] + chain, 1);
    }

    method GrowRight()
      requires Valid() && end.at == |chain| - 1 && len > 0
      modifies this, chain
      ensures Valid() && Contents == old(Contents) && end == old(end)
      ensures |chain| >= 1 && chain == old(chain) + [chain[|chain| - 1]]
      ensures fresh(chain[|chain| - 1]) && fresh(chain[|chain| - 1].data)
    {
      hide Occupied, Stores, ChainLinked;
      var node := LinkBack(chain, tail);
      AppendKeeps(chain, node, Start(), Contents);
      Rechain(head, node, chain + [node], 0);
    }

    /** Installs a chain that has lost free blocks. */
    method Shrunk(first: Node, last: Node, ghost now: seq<Node>, ghost shift: nat)
      requires Cursors() && len > 0 && nNodes >= 1 && shift <= begin.at && shift <= end.at
      requires Apart(now) && ChainLinked(now) && |now| == nNodes - 1 && first == now[0] && last == now[|now| - 1]
      requires begin.at - shift < |now| && begin.node == now[begin.at - shift]
      requires end.at - shift < |now| && end.node == now[end.at - shift]
      requires Occupied(now, Start() - BLOCK_SIZE * shift, len) && Stores(now, Start() - BLOCK_SIZE * shift, Contents)
      modifies this
      ensures Valid() && Contents == old(Contents) && chain == now && len == old(len)
      ensures begin == old(begin).(at := old(begin).at - shift) && end == old(end).(at := old(end).at - shift)
    {
      hide Occupied, Stores, ChainLinked;
      ghost var at := Start() - BLOCK_SIZE * shift;
      head, tail, nNodes := first, last, nNodes - 1;
      assert ChainLinked(now) && Occupied(now, at, len) && Stores(now, at, Contents);
      begin, end, chain := begin.(at := begin.at - shift), end.(at := end.at - shift), now;
      assert Start() == at;
    }

    method FreeFront()
      requires Valid() && len > 0 && begin.at >= 2
      modifies this, chain
      ensures Valid() && Contents == old(Contents) && chain == old(chain)[1..] && len == old(len)
      ensures begin == old(begin).(at := old(begin).at - 1) && end == old(end).(at := old(end).at - 1)
    {
      var second := head.next;
      hide Occupied, Stores;
      TailKeeps(chain, Start(), Contents);
      UnlinkFront(chain, second);
      hide ChainLinked;
      Shrunk(second, tail, chain[1..], 1);
    }

    method FreeBack()
      requires Valid() && len > 0 && end.at + 2 < |chain|
      modifies this, chain
      ensures Valid() && Contents == old(Contents) && chain == old(chain)[..|old(chain)| - 1] && len == old(len)
      ensures begin == old(begin) && end == old(end)
    {
      var last := tail.prev;
      ghost var now := chain[..|chain| - 1];
      assert Occupied(now, Start(), len) && Stores(now, Start(), Contents);
      hide Occupied, Stores;
      UnlinkBack(chain, last);
      hide ChainLinked;
      Shrunk(head, last, now, 0);
    }

    /** Where the loops of `FreeRedundantNodes` stop: at the block next to the elements. */
    lemma FreeBlocks()
      requires Valid() && len > 0
      ensures begin.at <= end.at
      ensures head.occupied == 0 <==> begin.at > 0
      ensures tail.occupied == 0 <==> end.at < |chain| - 1
      ensures begin.at > 0 ==> (head == begin.node.prev <==> begin.at == 1)
      ensures end.at < |chain| - 1 ==> (tail == end.node.next <==> end.at == |chain| - 2)
    {
    }

    ghost predicate Within(nodes: set<Node>)
      reads this
    {
      forall n :: n in chain ==> n in nodes
    }

    method FreeLeft(ghost nodes: set<Node>)
      requires Valid() && len > 0 && Within(nodes)
      modifies this, nodes
      ensures Valid() && len > 0 && Contents == old(Contents) && Within(nodes) && begin.at <= 1
    {
      hide Occupied, Stores, ChainLinked;
      FreeBlocks();
      while head.occupied == 0 && head != begin.node.prev
        invariant Valid() && len > 0 && Contents == old(Contents) && Within(nodes)
        decreases |chain|
      {
        FreeBlocks();
        FreeFront();
      }
      FreeBlocks();
    }

    method FreeRight(ghost nodes: set<Node>)
      requires Valid() && len > 0 && Within(nodes)
      modifies this, nodes
      ensures Valid() && Contents == old(Contents) && Within(nodes) && nNodes <= end.at + 2 && begin == old(begin)
    {
      hide Occupied, Stores, ChainLinked;
      FreeBlocks();
      while tail.occupied == 0 && tail != end.node.next
        invariant Valid() && len > 0 && Contents == old(Contents) && Within(nodes) && begin == old(begin)
        decreases |chain|
      {
        FreeBlocks();
        FreeBack();
      }
      FreeBlocks();
    }

    /** On a non-empty list: at most one free block is left at either end, and no element moves. */
    method FreeRedundantNodes()
      requires Valid() && len > 0
      modifies this, chain
      ensures Valid() && Contents == old(Contents) && forall n :: n in chain ==> n in old(chain)
      ensures BLOCK_SIZE * old(nNodes) >= 2 * old(len) ==> begin.at <= 1 && nNodes <= end.at + 2
    {
      hide Occupied, Stores, ChainLinked;
      if BLOCK_SIZE * nNodes >= 2 * len {
        ghost var nodes := set n | n in chain;
        FreeLeft(nodes);
        FreeRight(nodes);
      }
    }

    /** Sets the begin cursor to a free cell just left of the elements and fills it. */
    method PutLeft(to: Iterator, val: Bytes)
      requires Valid() && to.at < |chain| && to.node == chain[to.at] && 0 <= to.ptr < BLOCK_SIZE
      requires len > 0 ==> BLOCK_SIZE * to.at + to.ptr == Start() - 1
      modifies this, to.node.data, to.node`occupied
      ensures Valid() && Contents == [val] + old(Contents) && chain == old(chain) && nNodes == old(nNodes)
    {
      hide Occupied, Stores, ChainLinked;
      ghost var start := BLOCK_SIZE * to.at + to.ptr;
      if len == 0 { EmptyAnywhere(chain, Start(), start + 1); }
      WriteLeft(chain, start, Contents, to.at, to.node, to.ptr, val);
      ghost var s := [val] + Contents;
      if begin.ptr == -1 {
        Settle(to, to, len + 1, start, s);
      } else {
        Settle(to, end, len + 1, start, s);
      }
    }

    method PutRight(to: Iterator, val: Bytes)
      requires Valid() && to.at < |chain| && to.node == chain[to.at] && 0 <= to.ptr < BLOCK_SIZE
      requires len > 0 ==> BLOCK_SIZE * to.at + to.ptr == Start() + len
      modifies this, to.node.data, to.node`occupied
      ensures Valid() && Contents == old(Contents) + [val] && chain == old(chain) && nNodes == old(nNodes)
    {
      hide Occupied, Stores, ChainLinked;
      ghost var start := if len == 0 then BLOCK_SIZE * to.at + to.ptr else Start();
      if len == 0 { EmptyAnywhere(chain, Start(), start); }
      WriteRight(chain, start, Contents, to.at, to.node, to.ptr, val);
      ghost var s := Contents + [val];
      if end.ptr == -1 {
        Settle(to, to, len + 1, start, s);
      } else {
        Settle(begin, to, len + 1, start, s);
      }
    }

    /** Both cursors on one cell means one element. */
    lemma OneElement()
      requires Valid() && len > 0
      ensures begin.node == end.node && begin.ptr == end.ptr <==> len == 1
      ensures len > 1 && begin.ptr == BLOCK_SIZE - 1 ==> begin.at + 1 < |chain|
      ensures len > 1 && end.ptr == 0 ==> end.at > 0
    {
    }

    method PushLeft(val: Bytes)
      requires Valid()
      modifies this, chain, set n | n in chain :: n.data
      ensures Valid() && Contents == [val] + old(Contents)
      ensures forall n :: n in chain ==> n in old(chain) || (fresh(n) && fresh(n.data))
    {
      if begin.ptr == -1 {
        PutLeft(begin.(ptr := BLOCK_SIZE - 1), val);
      } else if begin.ptr == 0 {
        if begin.node.prev == null {
          GrowLeft();
        }
        PutLeft(Iterator(begin.node.prev, BLOCK_SIZE - 1, begin.at - 1), val);
      } else {
        PutLeft(begin.(ptr := begin.ptr - 1), val);
      }
    }

    method PushRight(val: Bytes)
      requires Valid()
      modifies this, chain, set n | n in chain :: n.data
      ensures Valid() && Contents == old(Contents) + [val]
      ensures forall n :: n in chain ==> n in old(chain) || (fresh(n) && fresh(n.data))
    {
      hide Occupied, Stores;
      if end.ptr == -1 {
        PutRight(end.(ptr := 0), val);
      } else if end.ptr == BLOCK_SIZE - 1 {
        if end.node.next == null {
          GrowRight();
        }
        PutRight(Iterator(end.node.next, 0, end.at + 1), val);
      } else {
        PutRight(end.(ptr := end.ptr + 1), val);
      }
    }

    /** Gives up the first of several cells; `to` is the second. */
    method AdvanceBegin(to: Iterator)
      requires Valid() && len > 1 && to.at < |chain| && to.node == chain[to.at]
      requires 0 <= to.ptr < BLOCK_SIZE && BLOCK_SIZE * to.at + to.ptr == Start() + 1
      modifies this, begin.node`occupied
      ensures Valid() && chain == old(chain) && nNodes == old(nNodes) && Contents == old(Contents)[1..]
    {
      hide Occupied, Stores, ChainLinked;
      ghost var start := Start();
      DropLeft(chain, start, Contents, begin.at, begin.node);
      Settle(to, end, len - 1, start + 1, Contents[1..]);
    }

    /** Gives up the last of several cells; `to` is the one before. */
    method RetreatEnd(to: Iterator)
      requires Valid() && len > 1 && to.at < |chain| && to.node == chain[to.at]
      requires 0 <= to.ptr < BLOCK_SIZE && BLOCK_SIZE * to.at + to.ptr == Start() + len - 2
      modifies this, end.node`occupied
      ensures Valid() && chain == old(chain) && nNodes == old(nNodes) && Contents == old(Contents)[..old(len) - 1]
    {
      hide Occupied, Stores, ChainLinked;
      ghost var start := Start();
      DropRight(chain, start, Contents, end.at, end.node);
      Settle(begin, to, len - 1, start, Contents[..len - 1]);
    }

    /** Gives up the only cell. */
    method PopOnly()
      requires Valid() && len == 1
      modifies this, begin.node`occupied
      ensures Valid() && chain == old(chain) && nNodes == old(nNodes) && Contents == []
    {
      ghost var start := Start();
      DropLeft(chain, start, Contents, begin.at, begin.node);
      Settle(begin.(ptr := -1), end.(ptr := -1), 0, start + 1, []);
    }

    lemma Ends()
      requires Valid() && len > 0
      ensures begin.node.data[begin.ptr] == Contents[0]
      ensures end.node.data[end.ptr] == Contents[len - 1]
    {
    }

    /** An empty list answers with an empty string and stays as it is. */
    method PopLeft() returns (val: Bytes)
      requires Valid()
      modifies this, chain
      ensures Valid() && chain == old(chain) && nNodes == old(nNodes)
      ensures old(Contents) == [] ==> val == [] && Contents == []
      ensures old(Contents) != [] ==> val == old(Contents)[0] && Contents == old(Contents)[1..]
    {
      if len == 0 { return []; }
      OneElement();
      Ends();
      val := begin.node.data[begin.ptr];
      if begin.node == end.node && begin.ptr == end.ptr {
        PopOnly();
      } else if begin.ptr == BLOCK_SIZE - 1 {
        AdvanceBegin(Iterator(begin.node.next, 0, begin.at + 1));
      } else {
        AdvanceBegin(begin.(ptr := begin.ptr + 1));
      }
    }

    method PopRight() returns (val: Bytes)
      requires Valid()
      modifies this, chain
      ensures Valid() && chain == old(chain) && nNodes == old(nNodes)
      ensures old(Contents) == [] ==> val == [] && Contents == []
      ensures old(Contents) != [] ==> val == old(Contents)[old(len) - 1] && Contents == old(Contents)[..old(len) - 1]
    {
      if len == 0 { return []; }
      OneElement();
      Ends();
      val := end.node.data[end.ptr];
      if begin.node == end.node && begin.ptr == end.ptr {
        PopOnly();
      } else if end.ptr == 0 {
        RetreatEnd(Iterator(end.node.prev, BLOCK_SIZE - 1, end.at - 1));
      } else {
        RetreatEnd(end.(ptr := end.ptr - 1));
      }
    }

    /** The block of element `idx`; without a block to cross, the offset counts from the begin cursor. */
    method NodeAtIndex(idx: nat) returns (node: Node, nCross: int, offset: nat, ghost at: nat)
      requires Valid() && idx < len
      ensures at < |chain| && node == chain[at]
      ensures nCross == -1 <==> at == begin.at
      ensures offset + (if nCross == -1 then begin.ptr else 0) < BLOCK_SIZE
      ensures BLOCK_SIZE * at + offset + (if nCross == -1 then begin.ptr else 0) == Start() + idx
    {
      if begin.node.occupied > idx {
        return begin.node, -1, idx, begin.at;
      }
      var diff := idx - begin.node.occupied;
      nCross, offset := diff / BLOCK_SIZE, diff % BLOCK_SIZE;
      node, at := begin.node, begin.at;
      for i := 0 to nCross + 1
        invariant at == begin.at + i && at <= end.at && node == chain[at]
      {
        node, at := node.next, at + 1;
      }
    }

    /** `operator[]`: the element, or the out-of-range exception. */
    method Get(idx: nat) returns (found: bool, val: Bytes)
      requires Valid()
      ensures found <==> idx < |Contents|
      ensures found ==> val == Contents[idx]
    {
      if idx >= len { return false, []; }
      var node, nCross, offset, at := NodeAtIndex(idx);
      var ptr := if nCross == -1 then begin.ptr + offset else offset;
      assert BLOCK_SIZE * at + ptr == Start() + idx;
      return true, node.data[ptr];
    }

    /** `operator[]` used as the target of a `Reset`. */
    method Set(idx: nat, val: Bytes) returns (found: bool)
      requires Valid()
      modifies this, set n | n in chain :: n.data
      ensures Valid() && chain == old(chain) && (found <==> idx < |old(Contents)|)
      ensures Contents == if found then old(Contents)[idx := val] else old(Contents)
    {
      hide Occupied, Stores, ChainLinked;
      if idx >= len { return false; }
      var node, nCross, offset, at := NodeAtIndex(idx);
      var ptr := if nCross == -1 then begin.ptr + offset else offset;
      Overwrite(chain, Start(), Contents, at, node, ptr, idx, val);
      Contents := Contents[idx := val];
      found := true;
    }

    /** The full range: every block from the first occupied one on. */
    method RangeAll() returns (values: seq<Bytes>)
      requires Valid()
      ensures values == Contents
    {
      values := [];
      if len == 0 { return; }
      var node: Node? := begin.node;
      var elem := begin.ptr;
      ghost var at := begin.at;
      while node != null && node.occupied > 0
        invariant begin.at <= at <= |chain| && node == if at < |chain| then chain[at] else null
        invariant elem == if at == begin.at then begin.ptr else 0
        invariant |values| <= len && values == Contents[..|values|]
        invariant |values| == if at == begin.at then 0 else if BLOCK_SIZE * at < Start() + len then BLOCK_SIZE * at - Start() else len
        decreases |chain| - at
      {
        ghost var k := |values|;
        for i := 0 to node.occupied
          invariant |values| == k + i <= len && values == Contents[..k + i]
        {
          assert chain[at].data[elem + i] == Contents[BLOCK_SIZE * at + elem + i - Start()];
          values := values + [node.data[elem + i]];
        }
        node, at, elem := node.next, at + 1, 0;
      }
    }

    ghost function Part(i: nat, k: nat): seq<Bytes>
      requires i <= k <= |Contents|
      reads this
    {
      Contents[i..k]
    }

    lemma PartJoin(i: nat, k: nat, m: nat)
      requires i <= k <= m <= |Contents|
      ensures Part(i, k) + Part(k, m) == Part(i, m) && |Part(i, k)| == k - i
    {
    }

    /** Element `k` is in cell `elem` of `node`, the block number `at`. */
    ghost predicate Here(node: Node, elem: int, at: nat, k: nat)
      reads this, chain
    {
      && k < len && at < |chain| && node == chain[at] && node.occupied > 0
      && 0 <= elem < BLOCK_SIZE && BLOCK_SIZE * at + elem == Start() + k
    }

    /** The inner loop of a range: elements from `first` on, out of one block. */
    method RangeInBlock(node: Node, elem: int, distance: nat, ghost at: nat, ghost first: nat) returns (taken: seq<Bytes>)
      requires Valid() && Here(node, elem, at, first) && first + distance <= len
      ensures |taken| == if distance < BLOCK_SIZE - elem then distance else BLOCK_SIZE - elem
      ensures first + |taken| <= len && taken == Part(first, first + |taken|)
    {
      taken := [];
      var cur, left := elem, distance;
      while cur != BLOCK_SIZE && left > 0
        invariant elem <= cur <= BLOCK_SIZE && 0 <= left && |taken| == cur - elem == distance - left
        invariant taken == Contents[first..first + |taken|]
        decreases left
      {
        assert chain[at].data[cur] == Contents[BLOCK_SIZE * at + cur - Start()];
        taken := taken + [node.data[cur]];
        cur, left := cur + 1, left - 1;
      }
    }

    /** Behind a block that was read to its end there is another one, as long as elements are left. */
    lemma NextBlock(node: Node, elem: int, at: nat, k: nat)
      requires Valid() && Here(node, elem, at, k) && k + (BLOCK_SIZE - elem) < len
      ensures node.next != null && Here(node.next, 0, at + 1, k + (BLOCK_SIZE - elem))
    {
      assert at < end.at;
      assert chain[at + 1].occupied == Share(at + 1, Start(), len);
    }

    /** The outer loop: block after block. */
    method RangeFrom(first: Node, offset: int, count: nat, ghost at: nat, ghost start: nat) returns (values: seq<Bytes>)
      requires Valid() && Here(first, offset, at, start) && start + count <= len
      ensures values == Part(start, start + count)
    {
      hide Occupied, Stores, ChainLinked, Share, Part, Here, Start;
      values := [];
      var node: Node?, elem, distance := first, offset, count;
      ghost var n, k := at, start;
      PartNone(start);
      HereCounts(first, offset, at, start);
      while node != null && node.occupied > 0 && distance > 0
        invariant 0 <= distance && start <= k && k + distance == start + count && values == Part(start, k)
        invariant distance > 0 ==> node != null && Here(node, elem, n, k) && node.occupied > 0
        decreases distance
      {
        HereCounts(node, elem, n, k);
        var taken := RangeInBlock(node, elem, distance, n, k);
        PartJoin(start, k, k + |taken|);
        if |taken| < distance {
          NextBlock(node, elem, n, k);
          HereCounts(node.next, 0, n + 1, k + |taken|);
        }
        values, distance, k := values + taken, distance - |taken|, k + |taken|;
        node, n, elem := node.next, n + 1, 0;
      }
    }

    lemma HereCounts(node: Node, elem: int, at: nat, k: nat)
      requires Here(node, elem, at, k)
      ensures node.occupied > 0 && 0 <= elem < BLOCK_SIZE
    {
    }

    /** The range from `start` to `finish`, clipped at the end of the list. */
    method Range(start: int, finish: int) returns (values: seq<Bytes>)
      requires Valid()
      requires len == 0 || start > finish || 0 <= start < len
      ensures len == 0 || start > finish ==> values == []
      ensures len > 0 && start <= finish ==>
        values == Contents[start..(if finish < len - 1 then finish else len - 1) + 1]
    {
      if len == 0 || start > finish { return []; }
      var last := if finish < len - 1 then finish else len - 1;
      var node, nCross, offset, at := NodeAtIndex(start);
      var elem := if nCross == -1 then begin.ptr + offset else offset;
      HoldsSome(at, elem, start);
      values := RangeFrom(node, elem, last - start + 1, at, start);
    }

    lemma PartNone(i: nat)
      requires i <= |Contents|
      ensures Part(i, i) == []
    {
    }

    /** The block of an element counts it. */
    lemma HoldsSome(at: nat, elem: nat, k: nat)
      requires Valid() && at < |chain| && elem < BLOCK_SIZE && k < len && BLOCK_SIZE * at + elem == Start() + k
      ensures chain[at].occupied > 0
    {
      assert chain[at].occupied == Share(at, Start(), len);
    }
  }

  // ----- Whole runs against a plain sequence -----

  /** `FreeOp` stands for `FreeRedundantNodes` on a list that is not empty. */
  datatype Op = PushLeftOp(val: Bytes) | PushRightOp(val: Bytes) | PopLeftOp | PopRightOp
    | SetOp(idx: nat, val: Bytes) | FreeOp

  function SeqStep(s: seq<Bytes>, op: Op): (seq<Bytes>, Bytes) {
    match op
    case PushLeftOp(v) => ([v] + s, [])
    case PushRightOp(v) => (s + [v], [])
    case PopLeftOp => if s == [] then ([], []) else (s[1..], s[0])
    case PopRightOp => if s == [] then ([], []) else (s[..|s| - 1], s[|s| - 1])
    case SetOp(i, v) => (if i < |s| then s[i := v] else s, [])
    case FreeOp => (s, [])
  }

  /** What a plain sequence does and answers, from an empty one or from `start`. */
  function SeqRun(ops: seq<Op>, start: seq<Bytes> := []): (seq<Bytes>, seq<Bytes>) {
    if ops == [] then (start, [])
    else
      var (s, popped) := SeqRun(ops[..|ops| - 1], start);
      var (s', v) := SeqStep(s, ops[|ops| - 1]);
      (s', popped + [v])
  }

  method Apply(list: DList, op: Op) returns (v: Bytes)
    requires list.Valid()
    modifies list, list.chain, set n | n in list.chain :: n.data
    ensures list.Valid() && (list.Contents, v) == SeqStep(old(list.Contents), op)
    ensures forall n :: n in list.chain ==> n in old(list.chain) || (fresh(n) && fresh(n.data))
  {
    v := [];
    match op {
      case PushLeftOp(val) => list.PushLeft(val);
      case PushRightOp(val) => list.PushRight(val);
      case PopLeftOp => v := list.PopLeft();
      case PopRightOp => v := list.PopRight();
      case SetOp(i, val) => var found := list.Set(i, val);
      case FreeOp => if list.len > 0 { list.FreeRedundantNodes(); }
    }
  }

  /** Every run of pushes, pops, overwrites and releases of spare blocks does what a plain sequence does. */
  method Run(ops: seq<Op>) returns (list: DList, popped: seq<Bytes>)
    ensures list.Valid() && (list.Contents, popped) == SeqRun(ops)
  {
    list := new DList();
    popped := RunOn(list, ops);
  }

  /** The same on a list that is there already. */
  method RunOn(list: DList, ops: seq<Op>) returns (popped: seq<Bytes>)
    requires list.Valid()
    modifies list, list.chain, set n | n in list.chain :: n.data
    ensures list.Valid() && (list.Contents, popped) == SeqRun(ops, old(list.Contents))
    ensures forall n :: n in list.chain ==> n in old(list.chain) || (fresh(n) && fresh(n.data))
  {
    hide Occupied, Stores, ChainLinked, Share, SeqStep;
    popped := [];
    ghost var start := list.Contents;
    for i := 0 to |ops|
      invariant list.Valid() && forall n :: n in list.chain ==> n in old(list.chain) || (fresh(n) && fresh(n.data))
      invariant (list.Contents, popped) == SeqRun(ops[..i], start)
    {
      assert ops[..i + 1][..i] == ops[..i];
      var v := Apply(list, ops[i]);
      popped := popped + [v];
    }
    assert ops[..|ops|] == ops;
  }
}
