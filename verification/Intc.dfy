/**
 The interrupt controller: handlers sit in a table and, once registered, in a list sorted by priority
 through the node embedded in their table slot; a mask repeats which ones are registered.
 */
module Intc {
  import opened DoublyList

  const MAX_COUNT: nat := 32

  /** ISR_T without its list node. Handlers are numbered; 0 is the null pointer. */
  datatype Isr = Isr(func: nat, pri: nat, intNum: nat)

  /** One handler invocation. */
  datatype Call = Call(intNum: nat, func: nat)

  /** The registered interrupts: priority and handler by interrupt number. */
  type Registry = map<nat, (nat, nat)>

  /** No registered interrupt has this priority. */
  ghost predicate Free(reg: Registry, pri: nat) {
    forall i :: i in reg ==> reg[i].0 != pri
  }

  predicate InTable(order: seq<nat>) {
    forall k :: 0 <= k < |order| ==> order[k] < MAX_COUNT
  }

  /** List order, mask and table tell the same story, and the order is by priority. */
  ghost predicate Agree(order: seq<nat>, mask: set<nat>, table: seq<Isr>) {
    && |table| == MAX_COUNT && InTable(order)
    && (forall i :: i in mask <==> i in order)
    && (forall i :: i in mask ==> table[i].func != 0 && table[i].intNum == i)
    && (forall i :: 0 <= i < MAX_COUNT && i !in mask ==> table[i].func == 0)
    && forall j, k :: 0 <= j < k < |order| ==> table[order[j]].pri < table[order[k]].pri
  }

  function RegistryOf(mask: set<nat>, table: seq<Isr>): (reg: Registry)
    requires forall i :: i in mask ==> i < |table|
  {
    map i | i in mask :: (table[i].pri, table[i].func)
  }

  /** The first k entries are below `pri`, and the next one, if any, is not. */
  predicate SlotFor(order: seq<nat>, table: seq<Isr>, pri: nat, k: nat)
    requires |table| == MAX_COUNT && InTable(order)
  {
    && k <= |order|
    && (forall j :: 0 <= j < k ==> table[order[j]].pri < pri)
    && (k < |order| ==> pri <= table[order[k]].pri)
  }

  function InsertAt(order: seq<nat>, k: nat, num: nat): (o: seq<nat>)
    requires k <= |order|
    ensures |o| == |order| + 1
    ensures forall i :: 0 <= i < |o| ==> o[i] == if i < k then order[i] else if i == k then num else order[i - 1]
  {
    order[..k] + [num] + order[k..]
  }

  lemma InsertedMembers(order: seq<nat>, k: nat, num: nat)
    requires k <= |order|
    ensures forall i :: i in InsertAt(order, k, num) <==> i in order || i == num
  {
  }

  /** A new interrupt whose priority is free goes to its slot. */
  lemma SlotTaken(order: seq<nat>, mask: set<nat>, table: seq<Isr>, num: nat, e: Isr, k: nat)
    requires Agree(order, mask, table) && num < MAX_COUNT && num !in mask && e.func != 0 && e.intNum == num
    requires SlotFor(order, table[num := e], e.pri, k)
    requires k < |order| ==> e.pri != table[order[k]].pri
    ensures Agree(InsertAt(order, k, num), mask + {num}, table[num := e])
  {
    InsertedMembers(order, k, num);
    InsertedSorted(order, table, num, e, k);
  }

  lemma InsertedSorted(order: seq<nat>, table: seq<Isr>, num: nat, e: Isr, k: nat)
    requires |table| == MAX_COUNT && InTable(order) && num < MAX_COUNT && num !in order
    requires forall i, j :: 0 <= i < j < |order| ==> table[order[i]].pri < table[order[j]].pri
    requires SlotFor(order, table[num := e], e.pri, k) && (k < |order| ==> e.pri != table[order[k]].pri)
    ensures var (o, t) := (InsertAt(order, k, num), table[num := e]);
      forall i, j :: 0 <= i < j < |o| ==> t[o[i]].pri < t[o[j]].pri
  {
    var (o, t) := (InsertAt(order, k, num), table[num := e]);
    assert forall i :: 0 <= i < |order| ==> t[order[i]] == table[order[i]];
    forall i, j | 0 <= i < j < |o|
      ensures t[o[i]].pri < t[o[j]].pri
    {
      if i == k {
        assert t[order[k]].pri <= t[order[j - 1]].pri;
      } else if j == k {
      } else {
        assert o[i] == order[if i < k then i else i - 1] && o[j] == order[if j < k then j else j - 1];
      }
    }
  }

  lemma SlotWasFree(order: seq<nat>, mask: set<nat>, table: seq<Isr>, num: nat, e: Isr, k: nat)
    requires Agree(order, mask, table) && num < MAX_COUNT && num !in mask
    requires SlotFor(order, table[num := e], e.pri, k)
    requires k < |order| ==> e.pri != table[order[k]].pri
    ensures Free(RegistryOf(mask, table), e.pri)
    ensures RegistryOf(mask + {num}, table[num := e]) == RegistryOf(mask, table)[num := (e.pri, e.func)]
  {
    forall i | i in mask
      ensures table[i].pri != e.pri
    {
      var j :| 0 <= j < |order| && order[j] == i;
    }
  }

  /** A filled slot is registered, in the list, and keeps its place when its handler changes. */
  lemma HandlerChanged(order: seq<nat>, mask: set<nat>, table: seq<Isr>, num: nat, isr: nat)
    requires Agree(order, mask, table) && num < MAX_COUNT && table[num].func != 0 && isr != 0
    ensures num in mask && exists k :: 0 <= k < |order| && table[order[k]].pri == table[num].pri
    ensures var t := table[num := table[num].(func := isr)];
      Agree(order, mask, t) && RegistryOf(mask, t) == RegistryOf(mask, table)[num := (table[num].pri, isr)]
  {
    assert num in mask && num in order;
    var k :| 0 <= k < |order| && order[k] == num;
    assert table[order[k]].pri == table[num].pri;
  }

  class Controller {
    const isrs: array<Isr>
    const links: seq<Node>
    const head: Node
    // isrs_mask, as the set of its bits
    var mask: set<nat>
    // handler invocations so far
    var calls: seq<Call>
    ghost var order: seq<nat>

    ghost function NodesOf(order: seq<nat>): (ns: seq<Node>)
      requires |links| == MAX_COUNT && InTable(order)
      ensures |ns| == |order| && forall k :: 0 <= k < |ns| ==> ns[k] == links[order[k]]
    {
      seq(|order|, k requires 0 <= k < |order| => links[order[k]])
    }

    ghost predicate Linked()
      reads this`order, head, links
    {
      && isrs.Length == |links| == MAX_COUNT && head.entry == -1
      && (forall i :: 0 <= i < |links| ==> links[i].entry == i)
      && InTable(order) && List(head, NodesOf(order))
    }

    /** The k-th node of the walk; the head ends it. */
    ghost function NodeAt(k: nat): Node
      reads this`order
      requires |links| == MAX_COUNT && InTable(order) && k <= |order|
    {
      if k < |order| then links[order[k]] else head
    }

    lemma WalkStarts()
      requires Linked()
      ensures head.next == NodeAt(0)
      ensures order != [] ==> head.next != head
    {
      var r := [head] + NodesOf(order);
      assert r[0].next == r[Succ(|r|, 0)];
    }

    lemma WalkSteps(k: nat)
      requires Linked() && k < |order|
      ensures NodeAt(k) != head && NodeAt(k).entry == order[k] && NodeAt(k).next == NodeAt(k + 1)
    {
      var r := [head] + NodesOf(order);
      assert r[k + 1].next == r[Succ(|r|, k + 1)];
    }

    lemma WalkEnds(k: nat)
      requires Linked() && k <= |order| && NodeAt(k) == head
      ensures k == |order|
    {
      assert forall j :: 0 <= j < |order| ==> NodeAt(j).entry == order[j];
    }

    ghost predicate Valid()
      reads this`order, this`mask, head, links, isrs
    {
      Linked() && Agree(order, mask, isrs[..])
    }

    ghost function View(): (reg: Registry)
      reads this`order, this`mask, head, links, isrs
      requires Valid()
    {
      RegistryOf(mask, isrs[..])
    }

    constructor ()
      ensures Valid() && View() == map[] && calls == []
      ensures fresh(head) && fresh(isrs) && forall i :: 0 <= i < |links| ==> fresh(links[i])
    {
      var nodes: seq<Node> := [];
      var n := 0;
      while n < MAX_COUNT
        invariant |nodes| == n <= MAX_COUNT && forall i :: 0 <= i < n ==> nodes[i].entry == i && fresh(nodes[i])
      {
        var node := new Node(n);
        nodes := nodes + [node];
        n := n + 1;
      }
      links, mask, calls, order := nodes, {}, [], [];
      head := new Node(-1);
      isrs := new Isr[MAX_COUNT](_ => Isr(0, 0, 0));
      new;
      assert [head] + NodesOf([]) == [head];
    }

    /** The walk of a registration: it stops at the first entry whose priority is not below `pri`. */
    method FindSlot(pri: nat) returns (pos: Node, ghost k: nat)
      requires Linked()
      ensures SlotFor(order, isrs[..], pri, k)
      ensures pos == if k < |order| then links[order[k]] else head
      ensures pos.entry == if k < |order| then order[k] else -1
    {
      WalkStarts();
      pos, k := head.next, 0;
      var n := pos.next;
      while pos != head
        invariant k <= |order| && pos == NodeAt(k) && n == pos.next
        invariant forall j :: 0 <= j < k ==> isrs[order[j]].pri < pri
        decreases |order| - k
      {
        WalkSteps(k);
        if pri <= isrs[pos.entry].pri {
          return;
        }
        pos, k := n, k + 1;
        n := pos.next;
      }
      WalkEnds(k);
    }

    /** Links the slot's node before the entry found by the walk. */
    method Link(num: nat, pos: Node, ghost k: nat)
      requires Linked() && num < MAX_COUNT && num !in order && k <= |order|
      requires pos == if k < |order| then links[order[k]] else head
      modifies this`order, head, links
      ensures Linked() && order == InsertAt(old(order), k, num)
    {
      ghost var m := if k < |order| then k + 1 else 0;
      assert pos == ([head] + NodesOf(order))[m];
      NotLinked(num);
      LinkedOrder(order, k, num);
      LinkNode(links[num], pos, NodesOf(order), m, NodesOf(InsertAt(order, k, num)));
      order := InsertAt(order, k, num);
    }

    /** The first node of an empty list goes after the head, any other before the place found. */
    method LinkNode(node: Node, pos: Node, ghost nodes: seq<Node>, ghost m: nat, ghost after: seq<Node>)
      requires List(head, nodes) && m <= |nodes| && pos == ([head] + nodes)[m] && node !in [head] + nodes
      requires [head] + after == InsertedBefore([head] + nodes, m, node)
      modifies node, head, nodes
      ensures List(head, after)
    {
      ghost var r := [head] + nodes;
      NeighboursIn(r, m);
      NeighboursIn(r, 0);
      var empty := ListEmpty(head, nodes);
      if empty {
        ListAddHead(node, head, nodes);
        assert InsertedBefore(r, m, node) == [head] + ([node] + nodes);
      } else {
        ListAddTail(node, pos, r, m);
      }
    }

    lemma LinkedOrder(order: seq<nat>, k: nat, num: nat)
      requires |links| == MAX_COUNT && InTable(order) && num < MAX_COUNT && k <= |order|
      ensures InsertedBefore([head] + NodesOf(order), if k < |order| then k + 1 else 0, links[num])
           == [head] + NodesOf(InsertAt(order, k, num))
    {
      var m := if k < |order| then k + 1 else 0;
      var (s, t) := (InsertedBefore([head] + NodesOf(order), m, links[num]), [head] + NodesOf(InsertAt(order, k, num)));
      forall i | 0 <= i < |t|
        ensures s[i] == t[i]
      {
        if i > k + 1 {
          assert t[i] == links[order[i - 2]];
        }
      }
    }

    lemma NotLinked(num: nat)
      requires Linked() && num < MAX_COUNT && num !in order
      ensures links[num] !in [head] + NodesOf(order)
      ensures forall x :: x in NodesOf(order) ==> x in links
    {
    }

    /** Links a node that is linked already in front of an earlier entry, which closes a loop without the head. */
    method LinkAgain(num: nat, pos: Node, ghost k: nat, ghost own: nat)
      requires Linked() && k < own < |order| && order[own] == num && pos == links[order[k]]
      modifies links, head
      ensures forall ns: seq<Node> :: !List(head, ns)
    {
      ghost var r := [head] + NodesOf(order);
      assert pos == r[k + 1] && links[num] == r[own + 1];
      ListAdd(links[num], pos.prev, pos);
      NoListAtAll(head, links[num], r, k + 1, own + 1);
    }

    /** The walk found the slot of a new interrupt. */
    method Join(num: nat, pos: Node, ghost k: nat, ghost table: seq<Isr>)
      requires Linked() && Agree(order, mask, table) && num < MAX_COUNT && num !in mask
      requires isrs[..] == table[num := isrs[num]] && isrs[num].func != 0 && isrs[num].intNum == num
      requires SlotFor(order, isrs[..], isrs[num].pri, k) && (k < |order| ==> isrs[num].pri != isrs[order[k]].pri)
      requires pos == if k < |order| then links[order[k]] else head
      modifies this`mask, this`order, head, links
      ensures Linked() && Registered(old(order), old(mask), table, num, isrs[num], order, mask, isrs[..])
      ensures Safe(RegistryOf(old(mask), table), num, isrs[num].pri)
    {
      ghost var now := isrs[..];
      Accepted(order, mask, table, num, isrs[num], k);
      Link(num, pos, k);
      assert isrs[..] == now;
      mask := mask + {num};
    }

    /** Registration after the table slot has been filled in; `table` is the table before. */
    method Place(num: nat, saved: Isr, ghost table: seq<Isr>)
      requires Linked() && Agree(order, mask, table) && num < MAX_COUNT && saved == table[num]
      requires isrs[..] == table[num := isrs[num]] && isrs[num].func != 0 && isrs[num].intNum == num
      modifies this`mask, this`order, isrs, head, links
      ensures Safe(RegistryOf(old(mask), table), num, old(isrs[num].pri)) ==>
                Linked() && Registered(old(order), old(mask), table, num, old(isrs[num]), order, mask, isrs[..])
      ensures !Safe(RegistryOf(old(mask), table), num, old(isrs[num].pri)) ==> forall ns: seq<Node> :: !List(head, ns)
    {
      var pos, k := FindSlot(isrs[num].pri);
      if pos != head && isrs[num].pri == isrs[pos.entry].pri {
        Refused(order, mask, table, num, isrs[num], k);
        isrs[num] := saved;
        assert isrs[..] == table;
      } else if num !in mask {
        Join(num, pos, k, table);
      } else {
        ghost var own := Looped(order, mask, table, num, isrs[num], k);
        LinkAgain(num, pos, k, own);
      }
    }

    /**
     intc_service_register. A new interrupt joins the list unless its priority is taken. Registering an
     interrupt again changes nothing, its handler included, if that is safe; otherwise no list starts at the
     head any more.
     */
    method Register(num: nat, pri: nat, isr: nat)
      requires Valid() && num < MAX_COUNT && isr != 0
      modifies this`mask, this`order, isrs, head, links
      ensures Safe(old(View()), num, pri) ==>
                && Valid()
                && View() == if num !in old(View()) && Free(old(View()), pri)
                             then old(View())[num := (pri, isr)] else old(View())
      ensures !Safe(old(View()), num, pri) ==> forall ns: seq<Node> :: !List(head, ns)
    {
      ghost var table := isrs[..];
      var saved := isrs[num];
      isrs[num] := Isr(isr, pri, num);
      assert isrs[..] == table[num := Isr(isr, pri, num)];
      Place(num, saved, table);
    }

    /** intc_service_change_handler: a registered interrupt gets the new handler; any other call changes nothing. */
    method ChangeHandler(num: nat, isr: nat)
      requires Valid() && num < MAX_COUNT && isr != 0
      modifies isrs
      ensures Valid()
      ensures View() == if num in old(View()) then old(View())[num := (old(View())[num].0, isr)] else old(View())
    {
      ghost var table := isrs[..];
      var buf := isrs[num];
      if isrs[num].func == 0 {
        return;
      }
      var pos := FindPriority(buf.pri);
      if pos {
        buf := buf.(func := isr);
      }
      isrs[num] := buf;
      assert isrs[..] == table[num := buf];
      HandlerChanged(order, mask, table, num, isr);
    }

    /** The walk of intc_service_change_handler. */
    method FindPriority(pri: nat) returns (found: bool)
      requires Linked()
      ensures found <==> exists k :: 0 <= k < |order| && isrs[order[k]].pri == pri
    {
      WalkStarts();
      var pos, n := head.next, head.next.next;
      ghost var k := 0;
      while pos != head
        invariant k <= |order| && pos == NodeAt(k) && n == pos.next
        invariant forall j :: 0 <= j < k ==> isrs[order[j]].pri != pri
        decreases |order| - k
      {
        WalkSteps(k);
        if pri == isrs[pos.entry].pri {
          return true;
        }
        pos, n, k := n, n.next, k + 1;
      }
      WalkEnds(k);
      found := false;
    }

    /** One entry of the walk: its handler runs, and its bit is cleared, if it is pending. */
    method ServeEntry(pos: Node, status: set<nat>, ghost intStatus: set<nat>, ghost k: nat, ghost ran: seq<Call>,
                      ghost done: seq<Call>)
      returns (left: set<nat>, ghost done': seq<Call>)
      requires Valid() && k < |order| && pos.entry == order[k]
      requires WalkedTo(order, mask, isrs[..], intStatus, k, done, status) && calls == ran + done
      modifies this`calls
      ensures WalkedTo(order, mask, isrs[..], intStatus, k + 1, done', left) && calls == ran + done'
    {
      var f := isrs[pos.entry];
      var i := f.intNum;
      NextHandler(order, mask, isrs[..], intStatus, k, done, status);
      if i in status {
        calls, left := calls + [Call(i, f.func)], status - {i};
        done' := done + [Call(i, f.func)];
      } else {
        left, done' := status, done;
      }
    }

    /** The walk of intc_hdl_entry; it stops as soon as nothing is pending. */
    method Walk(intStatus: set<nat>) returns (ghost done: seq<Call>)
      requires Valid()
      modifies this`calls
      ensures calls == old(calls) + done && done == Handlers(order, isrs[..], intStatus)
    {
      var status := intStatus * mask;
      done := [];
      WalkStarts();
      WalkSoFarStarts(order, mask, isrs[..], intStatus);
      var pos, n := head.next, head.next.next;
      ghost var k := 0;
      while pos != head
        invariant k <= |order| && pos == NodeAt(k) && n == pos.next
        invariant calls == old(calls) + done
        invariant WalkedTo(order, mask, isrs[..], intStatus, k, done, status)
        decreases |order| - k
      {
        WalkSteps(k);
        status, done := ServeEntry(pos, status, intStatus, k, old(calls), done);
        if status == {} {
          NothingPending(order, mask, isrs[..], intStatus, k + 1, done);
          return;
        }
        pos, n, k := n, n.next, k + 1;
      }
      WalkEnds(k);
      NothingLeft(order, mask, isrs[..], intStatus, done, status);
    }

    /**
     intc_hdl_entry: the handlers of the pending registered interrupts run, each once, in order of
     priority, and each is the one installed last.
     */
    method HdlEntry(intStatus: set<nat>)
      requires Valid()
      modifies this`calls
      ensures Valid() && View() == old(View())
      ensures calls == old(calls) + Handlers(order, isrs[..], intStatus)
      ensures Serves(Handlers(order, isrs[..], intStatus), View(), intStatus)
    {
      HandlersServe(order, mask, isrs[..], intStatus);
      ghost var done := Walk(intStatus);
    }
  }

  /** The handlers of the pending interrupts in list order. */
  ghost function Handlers(order: seq<nat>, table: seq<Isr>, pending: set<nat>): seq<Call>
    requires |table| == MAX_COUNT && InTable(order)
  {
    if order == [] then []
    else
      var (n, rest) := (order[|order| - 1], Handlers(order[..|order| - 1], table, pending));
      if n in pending then rest + [Call(n, table[n].func)] else rest
  }

  /** After k entries, `done` have run and the bits in `status` are still to be served. */
  ghost predicate WalkedTo(order: seq<nat>, mask: set<nat>, table: seq<Isr>, pending: set<nat>, k: nat,
                           done: seq<Call>, status: set<nat>)
    requires |table| == MAX_COUNT && InTable(order)
  {
    && k <= |order| && done == Handlers(order[..k], table, pending)
    && forall i :: i in status <==> i in pending && i in mask && i !in order[..k]
  }

  lemma WalkSoFarStarts(order: seq<nat>, mask: set<nat>, table: seq<Isr>, pending: set<nat>)
    requires |table| == MAX_COUNT && InTable(order)
    ensures WalkedTo(order, mask, table, pending, 0, [], pending * mask)
  {
  }

  lemma HandlersGrow(order: seq<nat>, table: seq<Isr>, pending: set<nat>, k: nat)
    requires |table| == MAX_COUNT && InTable(order) && k < |order|
    ensures Handlers(order[..k + 1], table, pending)
         == Handlers(order[..k], table, pending)
            + if order[k] in pending then [Call(order[k], table[order[k]].func)] else []
  {
    assert order[..k + 1][..k] == order[..k];
  }

  lemma NextHandler(order: seq<nat>, mask: set<nat>, table: seq<Isr>, pending: set<nat>, k: nat,
                    done: seq<Call>, status: set<nat>)
    requires Agree(order, mask, table) && k < |order| && WalkedTo(order, mask, table, pending, k, done, status)
    ensures table[order[k]].intNum == order[k]
    ensures order[k] in status ==> (
      var done' := done + [Call(order[k], table[order[k]].func)];
      WalkedTo(order, mask, table, pending, k + 1, done', status - {order[k]}))
    ensures order[k] !in status ==> WalkedTo(order, mask, table, pending, k + 1, done, status)
  {
    HandlersGrow(order, table, pending, k);
    assert order[..k + 1] == order[..k] + [order[k]];
    assert order[k] in mask && order[k] !in order[..k];
    assert done + [] == done;
  }

  /** Once nothing is pending, the rest of the list has no handler to add: returning early skips none. */
  lemma {:induction false} NothingPending(order: seq<nat>, mask: set<nat>, table: seq<Isr>, pending: set<nat>, k: nat,
                                          done: seq<Call>)
    requires Agree(order, mask, table) && WalkedTo(order, mask, table, pending, k, done, {})
    ensures done == Handlers(order, table, pending)
    decreases |order| - k
  {
    if k == |order| {
      assert order[..k] == order;
    } else {
      NextHandler(order, mask, table, pending, k, done, {});
      NothingPending(order, mask, table, pending, k + 1, done);
    }
  }

  lemma NothingLeft(order: seq<nat>, mask: set<nat>, table: seq<Isr>, pending: set<nat>, done: seq<Call>,
                    status: set<nat>)
    requires |table| == MAX_COUNT && InTable(order) && WalkedTo(order, mask, table, pending, |order|, done, status)
    ensures done == Handlers(order, table, pending)
  {
    assert order[..|order|] == order;
  }

  /** These are the handlers of the pending registered interrupts, each once, in order of priority. */
  ghost predicate Serves(served: seq<Call>, reg: Registry, pending: set<nat>) {
    && (forall i :: 0 <= i < |served| ==>
          served[i].intNum in reg && served[i].intNum in pending && served[i].func == reg[served[i].intNum].1)
    && (forall i :: i in reg && i in pending ==> exists k :: 0 <= k < |served| && served[k].intNum == i)
    && (forall j, k :: 0 <= j < k < |served| ==>
          served[j].intNum in reg && served[k].intNum in reg && reg[served[j].intNum].0 < reg[served[k].intNum].0)
  }

  /** Each of these handlers is pending and among the first k entries. */
  ghost predicate ServesOnly(s: seq<Call>, order: seq<nat>, table: seq<Isr>, pending: set<nat>, k: nat)
    requires |table| == MAX_COUNT && InTable(order) && k <= |order|
  {
    forall i :: 0 <= i < |s| ==>
      s[i].intNum in order[..k] && s[i].intNum in pending && s[i].func == table[s[i].intNum].func
  }

  /** Each pending interrupt among the first k entries has its handler here. */
  ghost predicate ServesAll(s: seq<Call>, order: seq<nat>, pending: set<nat>, k: nat)
    requires k <= |order|
  {
    forall j :: 0 <= j < k && order[j] in pending ==> exists i :: 0 <= i < |s| && s[i].intNum == order[j]
  }

  ghost predicate InOrder(s: seq<Call>, table: seq<Isr>) {
    && (forall i :: 0 <= i < |s| ==> s[i].intNum < |table|)
    && forall i, j :: 0 <= i < j < |s| ==> table[s[i].intNum].pri < table[s[j].intNum].pri
  }

  ghost predicate ServesUpTo(s: seq<Call>, order: seq<nat>, table: seq<Isr>, pending: set<nat>, k: nat)
    requires |table| == MAX_COUNT && InTable(order) && k <= |order|
  {
    ServesOnly(s, order, table, pending, k) && ServesAll(s, order, pending, k) && InOrder(s, table)
  }

  lemma ServesOneMore(s: seq<Call>, t: seq<Call>, order: seq<nat>, table: seq<Isr>, pending: set<nat>, k: nat)
    requires |table| == MAX_COUNT && InTable(order) && k < |order|
    requires forall i, j :: 0 <= i < j < |order| ==> table[order[i]].pri < table[order[j]].pri
    requires ServesUpTo(s, order, table, pending, k)
    requires t == s + if order[k] in pending then [Call(order[k], table[order[k]].func)] else []
    ensures ServesUpTo(t, order, table, pending, k + 1)
  {
    assert order[..k + 1] == order[..k] + [order[k]];
    assert forall i :: 0 <= i < |s| ==> t[i] == s[i];
    if order[k] in pending {
      AppendedInOrder(s, order, table, pending, k);
      assert ServesOnly(t, order, table, pending, k + 1);
      forall j | 0 <= j < k + 1 && order[j] in pending
        ensures exists i :: 0 <= i < |t| && t[i].intNum == order[j]
      {
        if j == k {
          assert t[|s|].intNum == order[j];
        } else {
          var i :| 0 <= i < |s| && s[i].intNum == order[j];
          assert t[i].intNum == order[j];
        }
      }
    } else {
      assert t == s;
    }
  }

  lemma AppendedInOrder(s: seq<Call>, order: seq<nat>, table: seq<Isr>, pending: set<nat>, k: nat)
    requires |table| == MAX_COUNT && InTable(order) && k < |order|
    requires forall i, j :: 0 <= i < j < |order| ==> table[order[i]].pri < table[order[j]].pri
    requires ServesOnly(s, order, table, pending, k) && InOrder(s, table)
    ensures InOrder(s + [Call(order[k], table[order[k]].func)], table)
  {
    forall i | 0 <= i < |s|
      ensures table[s[i].intNum].pri < table[order[k]].pri
    {
      var j :| 0 <= j < k && order[..k][j] == s[i].intNum;
    }
  }

  lemma {:induction false} HandlersUpTo(order: seq<nat>, mask: set<nat>, table: seq<Isr>, pending: set<nat>, k: nat)
    requires Agree(order, mask, table) && k <= |order|
    ensures ServesUpTo(Handlers(order[..k], table, pending), order, table, pending, k)
  {
    if k > 0 {
      HandlersUpTo(order, mask, table, pending, k - 1);
      HandlersGrow(order, table, pending, k - 1);
      ServesOneMore(Handlers(order[..k - 1], table, pending), Handlers(order[..k], table, pending), order, table,
                    pending, k - 1);
    }
  }

  lemma HandlersServe(order: seq<nat>, mask: set<nat>, table: seq<Isr>, pending: set<nat>)
    requires Agree(order, mask, table)
    ensures Serves(Handlers(order, table, pending), RegistryOf(mask, table), pending)
  {
    HandlersUpTo(order, mask, table, pending, |order|);
    assert order[..|order|] == order;
  }

  /** The requirement leaves no choice: two such runs of handlers are the same. */
  lemma ServesIsUnique(a: seq<Call>, b: seq<Call>, reg: Registry, pending: set<nat>)
    requires Serves(a, reg, pending) && Serves(b, reg, pending)
    ensures a == b
  {
    if |a| > 0 {
      Matches(a, b, reg, pending, |a| - 1);
    }
    if |b| > 0 {
      Matches(b, a, reg, pending, |b| - 1);
    }
  }

  /** The entry for the k-th interrupt of `a` comes no earlier in `b`, when the two agree before k. */
  lemma Placed(a: seq<Call>, b: seq<Call>, reg: Registry, pending: set<nat>, k: nat) returns (i: nat)
    requires Serves(a, reg, pending) && Serves(b, reg, pending) && k < |a|
    requires k <= |b| && forall j :: 0 <= j < k ==> a[j] == b[j]
    ensures k <= i < |b| && b[i].intNum == a[k].intNum
    ensures i > k ==> reg[b[k].intNum].0 < reg[a[k].intNum].0
  {
    var x := a[k].intNum;
    assert x in reg && x in pending;
    assert forall j :: 0 <= j < k ==> a[j].intNum != x;
    i :| 0 <= i < |b| && b[i].intNum == x;
  }

  lemma {:induction false} Matches(a: seq<Call>, b: seq<Call>, reg: Registry, pending: set<nat>, k: nat)
    requires Serves(a, reg, pending) && Serves(b, reg, pending) && k < |a|
    ensures k < |b| && forall j :: 0 <= j <= k ==> a[j] == b[j]
  {
    if k > 0 {
      Matches(a, b, reg, pending, k - 1);
    }
    var i := Placed(a, b, reg, pending, k);
    var j := Placed(b, a, reg, pending, k);
    assert i == k;
  }

  /** The outcome of a registration: a new entry, or nothing. */
  ghost predicate Registered(order: seq<nat>, mask: set<nat>, table: seq<Isr>, num: nat, e: Isr,
                             order': seq<nat>, mask': set<nat>, table': seq<Isr>)
    requires Agree(order, mask, table)
  {
    && Agree(order', mask', table')
    && var reg := RegistryOf(mask, table);
       RegistryOf(mask', table') == if num !in reg && Free(reg, e.pri) then reg[num := (e.pri, e.func)] else reg
  }

  /**
   Registering `num` with priority `pri` is harmless: it is new, or the priority is taken, or it does not move
   in front of an interrupt that has been in front of it.
   */
  ghost predicate Safe(reg: Registry, num: nat, pri: nat) {
    num in reg && Free(reg, pri) ==> forall i :: i in reg && pri < reg[i].0 ==> reg[num].0 <= reg[i].0
  }

  lemma Refused(order: seq<nat>, mask: set<nat>, table: seq<Isr>, num: nat, e: Isr, k: nat)
    requires Agree(order, mask, table) && num < MAX_COUNT && k < |order|
    requires SlotFor(order, table[num := e], e.pri, k) && e.pri == table[num := e][order[k]].pri
    ensures Safe(RegistryOf(mask, table), num, e.pri)
    ensures Registered(order, mask, table, num, e, order, mask, table)
  {
    assert order[k] in mask && order[k] in RegistryOf(mask, table);
    if order[k] == num {
      forall i | i in mask && e.pri < table[i].pri
        ensures table[num].pri <= table[i].pri
      {
        var j :| 0 <= j < |order| && order[j] == i;
      }
    }
  }

  lemma Accepted(order: seq<nat>, mask: set<nat>, table: seq<Isr>, num: nat, e: Isr, k: nat)
    requires Agree(order, mask, table) && num < MAX_COUNT && num !in mask && e.func != 0 && e.intNum == num
    requires SlotFor(order, table[num := e], e.pri, k)
    requires k < |order| ==> e.pri != table[num := e][order[k]].pri
    ensures num !in order && Safe(RegistryOf(mask, table), num, e.pri)
    ensures Registered(order, mask, table, num, e, InsertAt(order, k, num), mask + {num}, table[num := e])
  {
    SlotTaken(order, mask, table, num, e, k);
    SlotWasFree(order, mask, table, num, e, k);
  }

  lemma Looped(order: seq<nat>, mask: set<nat>, table: seq<Isr>, num: nat, e: Isr, k: nat) returns (own: nat)
    requires Agree(order, mask, table) && num in mask
    requires SlotFor(order, table[num := e], e.pri, k)
    requires k < |order| ==> e.pri != table[num := e][order[k]].pri
    ensures k < own < |order| && order[own] == num
    ensures !Safe(RegistryOf(mask, table), num, e.pri)
  {
    var reg := RegistryOf(mask, table);
    own :| 0 <= own < |order| && order[own] == num;
    assert table[num := e][order[own]].pri == e.pri;
    assert k < own;
    forall i | i in reg
      ensures reg[i].0 != e.pri
    {
      var j :| 0 <= j < |order| && order[j] == i;
      assert table[order[j]].pri < table[order[k]].pri || table[order[k]].pri <= table[order[j]].pri;
    }
    assert order[k] in reg && e.pri < reg[order[k]].0 < reg[num].0;
  }

  /** An input that is not safe: interrupt 2 asks for a place in front of interrupt 1, which is in front of it. */
  lemma UnsafeExample(f: nat, g: nat)
    ensures !Safe(map[1 := (5, f), 2 := (7, g)], 2, 1)
  {
    assert 1 in map[1 := (5, f), 2 := (7, g)];
  }

  /** The same example on a fresh controller: the third call leaves no list at the head. */
  method RegisterTwice(f: nat, g: nat, h: nat) returns (c: Controller)
    requires f != 0 && g != 0 && h != 0
    ensures forall ns: seq<Node> :: !List(c.head, ns)
  {
    c := new Controller();
    c.Register(1, 5, f);
    c.Register(2, 7, g);
    UnsafeExample(f, g);
    c.Register(2, 1, h);
  }
}
