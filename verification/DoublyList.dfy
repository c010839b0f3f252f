/**
 The intrusive circular doubly linked list: nodes are rewired in place, and a ghost sequence names the
 ring they form, starting at the list head.
 */
module DoublyList {
  import opened Bytes

  class Node {
    var next: Node
    var prev: Node
    // stands for the address arithmetic of list_entry: which object this node is embedded in
    const entry: int

    constructor (entry: int)
      ensures this.entry == entry && next == this && prev == this
    {
      this.entry := entry;
      next, prev := this, this;
    }
  }

  function Succ(n: nat, i: nat): (r: nat)
    requires i < n
    ensures r < n
  {
    if i + 1 == n then 0 else i + 1
  }

  function Pred(n: nat, i: nat): (r: nat)
    requires i < n
    ensures r < n && Succ(n, r) == i
  {
    if i == 0 then n - 1 else i - 1
  }

  ghost predicate Distinct(r: seq<Node>) {
    forall i, j :: 0 <= i < j < |r| ==> r[i] != r[j]
  }

  /** The nodes form one circle, in this order, in both directions. */
  ghost predicate Ring(r: seq<Node>)
    reads r
  {
    && 0 < |r| && Distinct(r)
    && (forall i {:trigger r[i].next} :: 0 <= i < |r| ==> r[i].next == r[Succ(|r|, i)])
    && (forall i {:trigger r[i].prev} :: 0 <= i < |r| ==> r[i].prev == r[Pred(|r|, i)])
  }

  /** `nodes` are the entries of the list with this head. */
  ghost predicate List(head: Node, nodes: seq<Node>)
    reads [head] + nodes
  {
    Ring([head] + nodes)
  }

  method InitListHead(head: Node)
    modifies head
    ensures List(head, [])
  {
    head.next := head;
    head.prev := head;
    assert [head] + [] == [head];
  }

  /** A ring may be named from any of its nodes. */
  lemma Rotate(r: seq<Node>, m: nat)
    requires Ring(r) && m <= |r|
    ensures Ring(r[m..] + r[..m])
  {
    var t := r[m..] + r[..m];
    Rotated(r, m);
    forall i | 0 <= i < |t|
      ensures t[i].next == t[Succ(|t|, i)] && t[i].prev == t[Pred(|t|, i)]
    {
      var j := Shift(|r|, m, i);
      assert t[i] == r[j];
      assert t[Succ(|t|, i)] == r[Succ(|r|, j)];
      assert t[Pred(|t|, i)] == r[Pred(|r|, j)];
    }
  }

  function Shift(n: nat, m: nat, i: nat): (j: nat)
    requires m <= n && i < n
    ensures j < n
  {
    if i < n - m then i + m else i + m - n
  }

  lemma Rotated<T>(r: seq<T>, m: nat)
    requires m <= |r|
    ensures var t := r[m..] + r[..m];
      && |t| == |r| && (forall i :: 0 <= i < |t| ==> t[i] == r[Shift(|r|, m, i)])
      && (forall x :: x in t <==> x in r)
      && ((forall i, j :: 0 <= i < j < |r| ==> r[i] != r[j]) ==> forall i, j :: 0 <= i < j < |t| ==> t[i] != t[j])
  {
    var t := r[m..] + r[..m];
    assert forall i :: 0 <= i < |t| ==> t[i] == r[Shift(|r|, m, i)];
    assert forall x :: x in t <==> x in r[..m] || x in r[m..];
    assert r == r[..m] + r[m..];
  }

  /** __list_add: the four assignments, whatever the nodes are linked to. */
  method ListAdd(node: Node, prev: Node, next: Node)
    requires node != prev && node != next
    modifies node, prev, next
    ensures prev.next == node && node.next == next && next.prev == node && node.prev == prev
    ensures prev != next ==> prev.prev == old(prev.prev) && next.next == old(next.next)
  {
    next.prev := node;
    node.next := next;
    node.prev := prev;
    prev.next := node;
  }

  /** A node outside the ring is linked between its end and its start. */
  method ListAddBetween(node: Node, prev: Node, next: Node, ghost r: seq<Node>)
    requires Ring(r) && prev == r[|r| - 1] && next == r[0] && node !in r
    modifies node, prev, next
    ensures Ring(r + [node])
  {
    ListAdd(node, prev, next);
  }

  /** __list_del, seen from the successor of the leaving node; the node's own pointers stay as they were. */
  method ListDelBetween(prev: Node, next: Node, ghost r: seq<Node>, ghost node: Node)
    requires 0 < |r| && Ring(r + [node]) && prev == r[|r| - 1] && next == r[0]
    modifies prev, next
    ensures Ring(r)
  {
    assert r == (r + [node])[..|r|];
    assert forall i :: 0 <= i < |r| ==> r[i] == (r + [node])[i];
    next.prev := prev;
    prev.next := next;
  }

  method ListAddHead(node: Node, head: Node, ghost nodes: seq<Node>)
    requires List(head, nodes) && node !in [head] + nodes
    modifies node, head, head.next
    ensures List(head, [node] + nodes)
  {
    HeadLast(head, nodes);
    ListAddBetween(node, head, head.next, nodes + [head]);
    HeadFirst(head, nodes, [node]);
  }

  /** The ring named from its second node, so that the head comes last. */
  lemma HeadLast(head: Node, nodes: seq<Node>)
    requires List(head, nodes)
    ensures Ring(nodes + [head]) && head.next == (nodes + [head])[0] && head == (nodes + [head])[|nodes|]
  {
    var r := [head] + nodes;
    Rotate(r, 1);
    assert r[1..] + r[..1] == nodes + [head];
    assert head == (nodes + [head])[|nodes|];
  }

  lemma HeadFirst(head: Node, nodes: seq<Node>, added: seq<Node>)
    requires Ring(nodes + [head] + added)
    ensures List(head, added + nodes)
  {
    var t := nodes + [head] + added;
    Rotate(t, |nodes|);
    assert t[|nodes|..] + t[..|nodes|] == [head] + (added + nodes);
  }

  /** The ring with the node inserted before r[k]; before the head itself, that is at the end of the list. */
  ghost function InsertedBefore(r: seq<Node>, k: nat, node: Node): seq<Node>
    requires k < |r|
  {
    if k == 0 then r + [node] else r[..k] + [node] + r[k..]
  }

  method ListAddTail(node: Node, at: Node, ghost r: seq<Node>, ghost k: nat)
    requires Ring(r) && k < |r| && at == r[k] && node !in r
    modifies node, at, at.prev
    ensures Ring(InsertedBefore(r, k, node))
  {
    ghost var ring := r[k..] + r[..k];
    Rotate(r, k);
    Rotated(r, k);
    assert at == ring[0];
    assert at.prev == ring[|ring| - 1];
    ListAddBetween(node, at.prev, at, ring);
    InsertedRing(r, k, node);
  }

  lemma InsertedRing(r: seq<Node>, k: nat, node: Node)
    requires k < |r| && Ring(r[k..] + r[..k] + [node])
    ensures Ring(InsertedBefore(r, k, node))
  {
    if k > 0 {
      Rotate(r[k..] + r[..k] + [node], |r| - k);
    }
    RotateBack(r, k, node);
  }

  lemma RotateBack<T>(r: seq<T>, k: nat, x: T)
    requires k < |r|
    ensures var t := r[k..] + r[..k] + [x];
      if k == 0 then t == r + [x] else t[|r| - k..] + t[..|r| - k] == r[..k] + [x] + r[k..]
  {
  }

  method ListDel(entry: Node, ghost r: seq<Node>, ghost k: nat)
    requires Ring(r) && 0 < k < |r| && entry == r[k]
    modifies entry.prev, entry.next
    ensures Ring(r[..k] + r[k + 1..])
    ensures entry.next == old(entry.next) && entry.prev == old(entry.prev)
  {
    ghost var ring := r[k + 1..] + r[..k];
    Rotate(r, k + 1);
    assert r[k + 1..] + r[..k + 1] == ring + [entry];
    assert ring[|ring| - 1] == (ring + [entry])[|ring| - 1] == entry.prev;
    assert ring[0] == (ring + [entry])[0] == entry.next;
    ListDelBetween(entry.prev, entry.next, ring, entry);
    Rotate(ring, |r| - k - 1);
    assert ring[|r| - k - 1..] + ring[..|r| - k - 1] == r[..k] + r[k + 1..];
  }

  method ListDelInit(entry: Node, ghost r: seq<Node>, ghost k: nat)
    requires Ring(r) && 0 < k < |r| && entry == r[k]
    modifies entry, entry.prev, entry.next
    ensures Ring(r[..k] + r[k + 1..]) && List(entry, [])
  {
    ListDel(entry, r, k);
    InitListHead(entry);
  }

  method ListEmpty(head: Node, ghost nodes: seq<Node>) returns (empty: bool)
    requires List(head, nodes)
    ensures empty <==> nodes == []
  {
    assert head == ([head] + nodes)[0];
    empty := head.next == head;
    assert nodes != [] ==> head.next == ([head] + nodes)[1];
  }

  lemma SeparateParts(list: Node, moved: seq<Node>, head: Node, nodes: seq<Node>)
    requires List(list, moved) && moved != []
    requires forall x :: x in [list] + moved ==> x !in [head] + nodes
    ensures list !in [head] + nodes && Apart(nodes + [head], moved)
    ensures list !in [head] + (moved + nodes)
  {
    ChainOf(list, moved);
    assert list in [list] + moved;
    assert forall j :: 0 <= j < |moved| ==> moved[j] in [list] + moved;
    assert forall i :: 0 <= i < |nodes + [head]| ==> (nodes + [head])[i] in [head] + nodes;
  }

  /** list_splice: the entries of one list move, in order, to the front of another. */
  method ListSplice(list: Node, head: Node, ghost moved: seq<Node>, ghost nodes: seq<Node>)
    requires List(list, moved) && List(head, nodes)
    requires forall x :: x in [list] + moved ==> x !in [head] + nodes
    modifies head, head.next, list.next, list.prev
    ensures List(head, moved + nodes)
    ensures list.next == old(list.next) && list.prev == old(list.prev)
  {
    var empty := ListEmpty(list, moved);
    if !empty {
      SeparateParts(list, moved, head, nodes);
      SpliceBetween(list, head, moved, nodes);
    } else {
      assert moved + nodes == nodes;
    }
  }

  /** An open stretch of a ring. */
  ghost predicate Chain(m: seq<Node>)
    reads m
  {
    && 0 < |m| && Distinct(m)
    && (forall i {:trigger m[i].next} :: 0 <= i < |m| - 1 ==> m[i].next == m[i + 1])
    && (forall i {:trigger m[i].prev} :: 0 < i < |m| ==> m[i].prev == m[i - 1])
  }

  lemma ChainOf(list: Node, moved: seq<Node>)
    requires List(list, moved) && moved != []
    ensures Chain(moved) && list.next == moved[0] && list.prev == moved[|moved| - 1] && list !in moved
  {
    var r := [list] + moved;
    Tail(r, list, moved);
    assert r[0].next == r[1] && r[0].prev == r[|moved|];
    forall i | 0 <= i < |moved|
      ensures i < |moved| - 1 ==> moved[i].next == moved[i + 1]
      ensures i > 0 ==> moved[i].prev == moved[i - 1]
    {
      assert moved[i] == r[i + 1];
    }
  }

  lemma Tail(r: seq<Node>, list: Node, moved: seq<Node>)
    requires Distinct(r) && r == [list] + moved
    ensures r[0] == list && Distinct(moved) && list !in moved
    ensures forall i :: 0 <= i < |moved| ==> moved[i] == r[i + 1]
  {
    assert forall i :: 0 <= i < |moved| ==> moved[i] == r[i + 1];
    assert list == r[0];
  }

  ghost predicate Apart(a: seq<Node>, b: seq<Node>) {
    forall i, j :: 0 <= i < |a| && 0 <= j < |b| ==> a[i] != b[j]
  }

  lemma DistinctTogether(a: seq<Node>, b: seq<Node>)
    requires Distinct(a) && Distinct(b) && Apart(a, b)
    ensures Distinct(a + b)
  {
  }

  /** Links a whole chain between the end and the start of a ring. */
  method JoinBetween(first: Node, last: Node, head: Node, at: Node, ghost r: seq<Node>, ghost m: seq<Node>)
    requires Ring(r) && Chain(m) && Apart(r, m)
    requires first == m[0] && last == m[|m| - 1] && head == r[|r| - 1] && at == r[0]
    modifies first, last, head, at
    ensures Ring(r + m)
  {
    first.prev := head;
    head.next := first;
    last.next := at;
    at.prev := last;
    DistinctTogether(r, m);
    ghost var s := r + m;
    forall i | 0 <= i < |s|
      ensures s[i].next == s[Succ(|s|, i)] && s[i].prev == s[Pred(|s|, i)]
    {
      if i < |r| {
        assert s[i] == r[i];
      } else {
        assert s[i] == m[i - |r|];
      }
    }
  }

  method SpliceBetween(list: Node, head: Node, ghost moved: seq<Node>, ghost nodes: seq<Node>)
    requires List(list, moved) && List(head, nodes) && moved != []
    requires list !in [head] + nodes && Apart(nodes + [head], moved)
    modifies head, head.next, list.next, list.prev
    ensures List(head, moved + nodes)
    ensures list.next == old(list.next) && list.prev == old(list.prev)
  {
    HeadLast(head, nodes);
    ChainOf(list, moved);
    JoinBetween(list.next, list.prev, head, head.next, nodes + [head], moved);
    HeadFirst(head, nodes, moved);
  }

  /** list_splice_init: the source list is left empty. */
  method ListSpliceInit(list: Node, head: Node, ghost moved: seq<Node>, ghost nodes: seq<Node>)
    requires List(list, moved) && List(head, nodes)
    requires forall x :: x in [list] + moved ==> x !in [head] + nodes
    modifies list, head, head.next, list.next, list.prev
    ensures List(head, moved + nodes) && List(list, [])
  {
    var empty := ListEmpty(list, moved);
    if !empty {
      SeparateParts(list, moved, head, nodes);
      SpliceBetween(list, head, moved, nodes);
      InitListHead(list);
    } else {
      assert moved + nodes == nodes;
    }
  }

  /** What the other list of a move looks like to the one that loses an entry. */
  ghost predicate SeparateLists(from: Node, nodes: seq<Node>, head: Node, dest: seq<Node>)
    reads [head] + dest
  {
    List(head, dest) && forall x :: x in [from] + nodes ==> x !in [head] + dest
  }

  /** list_move between two lists: out of one, to the front of the other. */
  method ListMove(entry: Node, head: Node, ghost from: Node, ghost nodes: seq<Node>, ghost k: nat,
                  ghost dest: seq<Node>)
    requires List(from, nodes) && k < |nodes| && entry == nodes[k] && SeparateLists(from, nodes, head, dest)
    modifies entry, entry.prev, entry.next, head, head.next
    ensures List(from, nodes[..k] + nodes[k + 1..]) && List(head, [entry] + dest)
  {
    ghost var r := [from] + nodes;
    ghost var rest := nodes[..k] + nodes[k + 1..];
    assert entry == r[k + 1] && entry in r;
    NeighboursIn(r, k + 1);
    Removal(from, nodes, k);
    ListDel(entry, r, k + 1);
    NeighboursIn([head] + dest, 0);
    assert head == ([head] + dest)[0] && head in [head] + dest;
    forall x | x in [from] + rest
      ensures x in r && x != entry
    {
      LeavesOut(r, k + 1, x);
    }
    ListAddHead(entry, head, dest);
  }

  lemma NeighboursIn(r: seq<Node>, k: nat)
    requires Ring(r) && k < |r|
    ensures r[k].next in r && r[k].prev in r
  {
  }

  lemma LeavesOut(r: seq<Node>, k: nat, x: Node)
    requires Distinct(r) && k < |r| && x in r[..k] + r[k + 1..]
    ensures x in r && x != r[k]
  {
  }

  lemma Removal(head: Node, nodes: seq<Node>, k: nat)
    requires k < |nodes|
    ensures ([head] + nodes)[..k + 1] + ([head] + nodes)[k + 2..] == [head] + (nodes[..k] + nodes[k + 1..])
  {
  }

  /** list_move inside one list: the entry goes to its front. */
  method ListMoveToFront(entry: Node, head: Node, ghost nodes: seq<Node>, ghost k: nat)
    requires List(head, nodes) && k < |nodes| && entry == nodes[k]
    modifies entry, entry.prev, entry.next, head, head.next, nodes
    ensures List(head, [entry] + (nodes[..k] + nodes[k + 1..]))
  {
    ghost var r := [head] + nodes;
    assert entry == r[k + 1];
    NeighboursIn(r, k + 1);
    Removal(head, nodes, k);
    ListDel(entry, r, k + 1);
    ghost var rest := nodes[..k] + nodes[k + 1..];
    assert head == ([head] + rest)[0] && head.next == ([head] + rest)[Succ(|rest| + 1, 0)];
    ListAddHead(entry, head, rest);
  }

  /** list_size, counting in 32 bits. */
  method ListSize(head: Node, ghost nodes: seq<Node>) returns (n: nat)
    requires List(head, nodes)
    ensures n == |nodes| % U32
  {
    ghost var r := [head] + nodes;
    ghost var i := 0;
    n := 0;
    assert head == r[0];
    var pos := head.next;
    while pos != head
      invariant 0 <= i <= |nodes| && n == i % U32
      invariant pos == r[Succ(|r|, i)]
      decreases |nodes| - i
    {
      n := (n + 1) % U32;
      i := i + 1;
      pos := pos.next;
    }
  }

  /**
   Two nodes reachable from the head that both point to the same node: the nodes r[0..q) lead from the
   head through r[m-1] to `node`, on to r[m], and from r[q-1] back to `node`. No list starts at such a head.
   */
  lemma NoListThroughLoop(head: Node, node: Node, r: seq<Node>, m: nat, q: nat, ns: seq<Node>)
    requires 0 < m < q <= |r| && Distinct(r) && r[0] == head
    requires forall i {:trigger r[i].next} :: 0 <= i < m - 1 ==> r[i].next == r[i + 1]
    requires r[m - 1].next == node && node.next == r[m]
    requires forall i {:trigger r[i].next} :: m <= i < q - 1 ==> r[i].next == r[i + 1]
    requires r[q - 1].next == node
    ensures !List(head, ns)
  {
    if List(head, ns) {
      var ring := [head] + ns;
      assert r[0] == ring[0];
      AllReached(ring, r, 0, m - 1);
      Follow(ring, r[m - 1]);
      Follow(ring, node);
      AllReached(ring, r, m, q - 1);
      NextIsInjective(ring, r[m - 1], r[q - 1]);
    }
  }

  lemma NoListAtAll(head: Node, node: Node, r: seq<Node>, m: nat, q: nat)
    requires 0 < m < q <= |r| && Distinct(r) && r[0] == head
    requires forall i {:trigger r[i].next} :: 0 <= i < m - 1 ==> r[i].next == r[i + 1]
    requires r[m - 1].next == node && node.next == r[m]
    requires forall i {:trigger r[i].next} :: m <= i < q - 1 ==> r[i].next == r[i + 1]
    requires r[q - 1].next == node
    ensures forall ns: seq<Node> :: !List(head, ns)
  {
    forall ns: seq<Node>
      ensures !List(head, ns)
    {
      NoListThroughLoop(head, node, r, m, q, ns);
    }
  }

  lemma NextIsInjective(ring: seq<Node>, x: Node, y: Node)
    requires Ring(ring) && x in ring && y in ring && x.next == y.next
    ensures x == y
  {
    var a :| 0 <= a < |ring| && ring[a] == x;
    var b :| 0 <= b < |ring| && ring[b] == y;
    assert ring[Succ(|ring|, a)] == ring[Succ(|ring|, b)];
  }

  lemma Follow(ring: seq<Node>, x: Node)
    requires Ring(ring) && x in ring
    ensures x.next in ring
  {
  }

  lemma {:induction false} AllReached(ring: seq<Node>, r: seq<Node>, from: nat, to: nat)
    requires Ring(ring) && from <= to < |r| && r[from] in ring
    requires forall i {:trigger r[i].next} :: from <= i < to ==> r[i].next == r[i + 1]
    ensures r[to] in ring
    decreases |r| - from
  {
    if from < to {
      Follow(ring, r[from]);
      AllReached(ring, r, from + 1, to);
    }
  }
}
