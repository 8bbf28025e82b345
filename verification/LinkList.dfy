/** linklist.c: a doubly linked list with a count, kept in order by its comparison when it has one. */
module LinkList {
  import opened Sequences
  import opened Wrappers

  class ListNode<T> {
    var next: ListNode?<T>
    var prev: ListNode?<T>
    const data: T

    constructor (data: T)
      ensures next == null && prev == null && this.data == data
    {
      next, prev, this.data := null, null, data;
    }
  }

  /** The node at position k, or null outside the list. */
  function At<T>(nodes: seq<ListNode<T>>, k: int): ListNode?<T> {
    if 0 <= k < |nodes| then nodes[k] else null
  }

  /** Each node points at its neighbours. */
  ghost predicate Linked<T>(nodes: seq<ListNode<T>>)
    reads nodes`next, nodes`prev
  {
    && (forall i {:trigger nodes[i].next} :: 0 <= i < |nodes| ==> nodes[i].next == At(nodes, i + 1))
    && (forall i {:trigger nodes[i].prev} :: 0 <= i < |nodes| ==> nodes[i].prev == At(nodes, i - 1))
  }

  function Inserted<T>(s: seq<T>, k: nat, x: T): seq<T>
    requires k <= |s|
  {
    s[..k] + [x] + s[k..]
  }

  ghost function Items<T>(nodes: seq<ListNode<T>>): (items: seq<T>)
    ensures |items| == |nodes| && forall i :: 0 <= i < |items| ==> items[i] == nodes[i].data
  {
    seq(|nodes|, i requires 0 <= i < |nodes| => nodes[i].data)
  }

  lemma InsertedDistinct<T>(nodes: seq<ListNode<T>>, k: nat, node: ListNode<T>)
    requires Distinct(nodes) && k <= |nodes| && node !in nodes
    ensures Distinct(Inserted(nodes, k, node)) && Set(Inserted(nodes, k, node)) == Set(nodes) + {node}
  {
  }

  lemma InsertedEnds<T>(nodes: seq<ListNode<T>>, k: nat, node: ListNode<T>)
    requires k <= |nodes|
    ensures var s := Inserted(nodes, k, node);
            && |s| == |nodes| + 1
            && At(s, 0) == (if k == 0 then node else At(nodes, 0))
            && At(s, |s| - 1) == if k == |nodes| then node else At(nodes, |nodes| - 1)
  {
  }

  /** Only the pointers across the gap at k changed, and they lead to the new node. */
  ghost predicate Opened<T>(nodes: seq<ListNode<T>>, k: nat, node: ListNode<T>)
    reads nodes`next, nodes`prev, node`next, node`prev
    requires k <= |nodes|
  {
    && node.next == At(nodes, k) && node.prev == At(nodes, k - 1)
    && (forall i {:trigger nodes[i].next} :: 0 <= i < |nodes| ==>
        nodes[i].next == if i == k - 1 then node else At(nodes, i + 1))
    && (forall i {:trigger nodes[i].prev} :: 0 <= i < |nodes| ==>
        nodes[i].prev == if i == k then node else At(nodes, i - 1))
  }

  lemma LinkedInserted<T>(nodes: seq<ListNode<T>>, k: nat, node: ListNode<T>)
    requires k <= |nodes| && Opened(nodes, k, node)
    ensures Linked(Inserted(nodes, k, node))
  {
    var s := Inserted(nodes, k, node);
    forall i {:trigger s[i].next} | 0 <= i < |s| ensures s[i].next == At(s, i + 1) {
      assert s[i] == if i < k then nodes[i] else if i == k then node else nodes[i - 1];
    }
    forall i {:trigger s[i].prev} | 0 <= i < |s| ensures s[i].prev == At(s, i - 1) {
      assert s[i] == if i < k then nodes[i] else if i == k then node else nodes[i - 1];
    }
  }

  lemma OneOf<T>(nodes: seq<ListNode<T>>, k: nat)
    requires Distinct(nodes) && k < |nodes|
    ensures forall i :: 0 <= i < |nodes| && i != k ==> nodes[i] != nodes[k]
  {
  }

  class List<T(==)> {
    var head: ListNode?<T>
    var tail: ListNode?<T>
    var count: nat
    const cmp: Option<(T, T) -> int>
    ghost var nodes: seq<ListNode<T>>

    ghost predicate Valid()
      reads this, nodes`next, nodes`prev
    {
      && head == At(nodes, 0) && tail == At(nodes, |nodes| - 1) && count == |nodes|
      && Distinct(nodes) && Linked(nodes)
    }

    constructor (cmp: Option<(T, T) -> int>)
      ensures Valid() && nodes == [] && this.cmp == cmp
    {
      head, tail, count, nodes := null, null, 0, [];
      this.cmp := cmp;
    }

    /** The new node goes before node k, as listnode_add_sort links it. */
    method LinkBefore(node: ListNode<T>, n: ListNode<T>, ghost k: nat)
      requires Valid() && k < |nodes| && n == nodes[k] && node !in nodes
      modifies this`head, this`count, this`nodes, nodes`next, nodes`prev, node`next, node`prev
      ensures Valid() && nodes == Inserted(old(nodes), k, node) && Set(nodes) == old(Set(nodes)) + {node}
    {
      hide Distinct, Inserted, Set;
      InsertedDistinct(nodes, k, node);
      InsertedEnds(nodes, k, node);
      OneOf(nodes, k);
      if k > 0 {
        OneOf(nodes, k - 1);
      }
      assert n.prev == At(nodes, k - 1);
      node.next := n;
      node.prev := n.prev;
      if n.prev != null {
        n.prev.next := node;
      } else {
        head := node;
      }
      n.prev := node;
      count := count + 1;
      LinkedInserted(nodes, k, node);
      nodes := Inserted(nodes, k, node);
    }

    /** The new node goes to the end, as listnode_add and the end of listnode_add_sort link it. */
    method LinkLast(node: ListNode<T>)
      requires Valid() && node !in nodes && node.next == null
      modifies this`head, this`tail, this`count, this`nodes, nodes`next, node`prev
      ensures Valid() && nodes == Inserted(old(nodes), |old(nodes)|, node) && Set(nodes) == old(Set(nodes)) + {node}
    {
      hide Distinct, Inserted, Set;
      InsertedDistinct(nodes, |nodes|, node);
      InsertedEnds(nodes, |nodes|, node);
      if |nodes| > 0 {
        OneOf(nodes, |nodes| - 1);
      }
      node.prev := tail;
      if tail != null {
        tail.next := node;
      } else {
        head := node;
      }
      tail := node;
      count := count + 1;
      LinkedInserted(nodes, |nodes|, node);
      nodes := Inserted(nodes, |nodes|, node);
    }

    /** listnode_add */
    method Add(val: T)
      requires Valid()
      modifies this, nodes
      ensures Valid() && fresh(Set(nodes) - old(Set(nodes)))
      ensures Items(nodes) == old(Items(nodes)) + [val]
    {
      hide Distinct;
      var node := new ListNode(val);
      LinkLast(node);
      assert Items(nodes) == Items(old(nodes)) + [val];
    }

    /** listnode_add_sort: before the first item that the new one is less than, else at the end. */
    method AddSort(val: T)
      requires Valid()
      modifies this, nodes
      ensures Valid() && fresh(Set(nodes) - old(Set(nodes)))
      ensures Items(nodes) == Inserted(old(Items(nodes)), Place(cmp, old(Items(nodes)), val), val)
    {
      hide Valid, Set, Place, Items, Inserted;
      ghost var items := Items(nodes);
      var node := new ListNode(val);
      AtHead();
      if cmp.Some? {
        var n := head;
        ghost var k: nat := 0;
        while n != null
          invariant Valid() && nodes == old(nodes) && node !in nodes && node.next == null
          invariant k <= |nodes| && n == At(nodes, k)
          invariant forall i :: 0 <= i < k ==> cmp.value(val, items[i]) >= 0
          decreases |nodes| - k
        {
          Follow(k);
          if cmp.value(val, n.data) < 0 {
            PlaceIs(cmp, items, val, k);
            ItemsInserted(nodes, k, node);
            LinkBefore(node, n, k);
            return;
          }
          n := n.next;
          k := k + 1;
        }
        PlaceIs(cmp, items, val, k);
      } else {
        PlaceLast(cmp, items, val);
      }
      ItemsInserted(nodes, |nodes|, node);
      LinkLast(node);
    }

    lemma AtHead()
      requires Valid()
      ensures head == At(nodes, 0)
    {
    }

    lemma Follow(k: nat)
      requires Valid() && k < |nodes|
      ensures nodes[k].next == At(nodes, k + 1)
    {
    }

    /** listnode_add_after: behind the given node, or at the front when there is none. */
    method AddAfter(pp: ListNode?<T>, val: T, ghost k: nat)
      requires Valid() && k <= |nodes| && pp == At(nodes, k - 1)
      modifies this, nodes
      ensures Valid() && fresh(Set(nodes) - old(Set(nodes)))
      ensures Items(nodes) == Inserted(old(Items(nodes)), k, val)
    {
      hide Valid, Inserted;
      var nn := new ListNode(val);
      ItemsInserted(nodes, k, nn);
      LinkAfter(pp, nn, k);
    }

    method LinkAfter(pp: ListNode?<T>, nn: ListNode<T>, ghost k: nat)
      requires Valid() && k <= |nodes| && pp == At(nodes, k - 1) && nn !in nodes
      modifies this`head, this`tail, this`count, this`nodes, nodes`next, nodes`prev, nn`next, nn`prev
      ensures Valid() && nodes == Inserted(old(nodes), k, nn) && Set(nodes) == old(Set(nodes)) + {nn}
    {
      hide Distinct, Inserted, Set, Linked, Opened;
      InsertedDistinct(nodes, k, nn);
      InsertedEnds(nodes, k, nn);
      Splice(pp, nn, k);
      count := count + 1;
      LinkedInserted(nodes, k, nn);
      nodes := Inserted(nodes, k, nn);
    }

    /** The pointers across the gap at k, and those of the ends. */
    method Splice(pp: ListNode?<T>, nn: ListNode<T>, ghost k: nat)
      requires Valid() && k <= |nodes| && pp == At(nodes, k - 1) && nn !in nodes
      modifies this`head, this`tail, nodes`next, nodes`prev, nn`next, nn`prev
      ensures Opened(nodes, k, nn)
      ensures head == (if k == 0 then nn else At(nodes, 0))
      ensures tail == if k == |nodes| then nn else At(nodes, |nodes| - 1)
    {
      hide Distinct;
      if k < |nodes| {
        OneOf(nodes, k);
      }
      if k > 0 {
        OneOf(nodes, k - 1);
      }
      if pp == null {
        if head != null {
          head.prev := nn;
        } else {
          tail := nn;
        }
        nn.next := head;
        nn.prev := pp;
        head := nn;
      } else {
        assert pp.next == At(nodes, k);
        if pp.next != null {
          pp.next.prev := nn;
        } else {
          tail := nn;
        }
        nn.next := pp.next;
        nn.prev := pp;
        pp.next := nn;
      }
    }

    /** listnode_delete: the first node holding this very value goes. */
    method Delete(val: T)
      requires Valid()
      modifies this, nodes
      ensures Valid() && Set(nodes) <= old(Set(nodes))
      ensures Items(nodes) == Removed(old(Items(nodes)), val)
    {
      hide Distinct, Dropped, Set, Removed;
      ghost var items := Items(nodes);
      var node := head;
      ghost var k: nat := 0;
      while node != null
        invariant Valid() && nodes == old(nodes) && k <= |nodes| && node == At(nodes, k)
        invariant forall i :: 0 <= i < k ==> items[i] != val
        decreases |nodes| - k
      {
        if node.data == val {
          RemovedIs(items, val, k);
          ItemsDropped(nodes, k);
          Unlink(node, k);
          return;
        }
        node := node.next;
        k := k + 1;
      }
      RemovedIs(items, val, k);
    }

    method Unlink(node: ListNode<T>, ghost k: nat)
      requires Valid() && k < |nodes| && node == nodes[k]
      modifies this, nodes
      ensures Valid() && nodes == Dropped(old(nodes), k) && Set(nodes) <= old(Set(nodes))
    {
      hide Distinct, Dropped, Set, Linked, Closed;
      DroppedEnds(nodes, k);
      Bypass(node, k);
      count := count - 1;
      LinkedDropped(nodes, k);
      nodes := Dropped(nodes, k);
    }

    /** The neighbours of node k, or the ends of the list, are made to point past it. */
    method Bypass(node: ListNode<T>, ghost k: nat)
      requires Valid() && k < |nodes| && node == nodes[k]
      modifies this`head, this`tail, nodes`next, nodes`prev
      ensures Closed(nodes, k)
      ensures head == At(nodes, if k == 0 then 1 else 0)
      ensures tail == At(nodes, if k == |nodes| - 1 then k - 1 else |nodes| - 1)
    {
      hide Distinct;
      OneOf(nodes, k);
      if k > 0 {
        OneOf(nodes, k - 1);
      }
      if k + 1 < |nodes| {
        OneOf(nodes, k + 1);
      }
      assert node.prev == At(nodes, k - 1) && node.next == At(nodes, k + 1);
      if node.prev != null {
        node.prev.next := node.next;
      } else {
        head := node.next;
      }
      if node.next != null {
        node.next.prev := node.prev;
      } else {
        tail := node.prev;
      }
    }
  }

  /** Only the pointers past node k changed, and they skip it. */
  ghost predicate Closed<T>(nodes: seq<ListNode<T>>, k: nat)
    reads nodes`next, nodes`prev
    requires k < |nodes|
  {
    && (forall i {:trigger nodes[i].next} :: 0 <= i < |nodes| && i != k ==>
        nodes[i].next == At(nodes, if i == k - 1 then k + 1 else i + 1))
    && (forall i {:trigger nodes[i].prev} :: 0 <= i < |nodes| && i != k ==>
        nodes[i].prev == At(nodes, if i == k + 1 then k - 1 else i - 1))
  }

  lemma LinkedDropped<T>(nodes: seq<ListNode<T>>, k: nat)
    requires k < |nodes| && Closed(nodes, k)
    ensures Linked(Dropped(nodes, k))
  {
    var s := Dropped(nodes, k);
    forall i {:trigger s[i].next} | 0 <= i < |s| ensures s[i].next == At(s, i + 1) {
      assert s[i] == nodes[if i < k then i else i + 1];
    }
    forall i {:trigger s[i].prev} | 0 <= i < |s| ensures s[i].prev == At(s, i - 1) {
      assert s[i] == nodes[if i < k then i else i + 1];
    }
  }

  lemma DroppedEnds<T>(nodes: seq<ListNode<T>>, k: nat)
    requires Distinct(nodes) && k < |nodes|
    ensures var s := Dropped(nodes, k);
            && |s| == |nodes| - 1 && Distinct(s) && Set(s) <= Set(nodes)
            && At(s, 0) == At(nodes, if k == 0 then 1 else 0)
            && At(s, |s| - 1) == At(nodes, if k == |nodes| - 1 then k - 1 else |nodes| - 1)
  {
  }

  function Removed<T(==)>(items: seq<T>, val: T): seq<T> {
    if items == [] then [] else if items[0] == val then items[1..] else [items[0]] + Removed(items[1..], val)
  }

  lemma {:induction false} RemovedIs<T>(items: seq<T>, val: T, k: nat)
    requires k <= |items| && forall i :: 0 <= i < k ==> items[i] != val
    requires k < |items| ==> items[k] == val
    ensures Removed(items, val) == if k < |items| then Dropped(items, k) else items
  {
    hide Dropped;
    if k > 0 {
      assert items == [items[0]] + items[1..];
      RemovedIs(items[1..], val, k - 1);
      DroppedBehind(items, k);
    } else {
      DroppedFront(items);
    }
  }

  lemma DroppedFront<T>(items: seq<T>)
    ensures items != [] ==> Dropped(items, 0) == items[1..]
  {
  }

  lemma DroppedBehind<T>(items: seq<T>, k: nat)
    requires 0 < k <= |items|
    ensures Dropped(items, k) == [items[0]] + Dropped(items[1..], k - 1)
  {
    if k < |items| {
      assert items[..k] == [items[0]] + items[1..][..k - 1] && items[k + 1..] == items[1..][k..];
    }
  }

  lemma ItemsDropped<T>(nodes: seq<ListNode<T>>, k: nat)
    requires k < |nodes|
    ensures Items(Dropped(nodes, k)) == Dropped(Items(nodes), k)
  {
  }

  ghost function Set<T>(nodes: seq<ListNode<T>>): set<ListNode<T>> {
    set x | x in nodes
  }

  /** Where listnode_add_sort puts a value. */
  function Place<T>(cmp: Option<(T, T) -> int>, items: seq<T>, val: T): (k: nat)
    ensures k <= |items|
  {
    if items == [] || (cmp.Some? && cmp.value(val, items[0]) < 0) then 0 else 1 + Place(cmp, items[1..], val)
  }

  lemma {:induction false} PlaceIs<T>(cmp: Option<(T, T) -> int>, items: seq<T>, val: T, k: nat)
    requires cmp.Some? && k <= |items| && forall i :: 0 <= i < k ==> cmp.value(val, items[i]) >= 0
    requires k < |items| ==> cmp.value(val, items[k]) < 0
    ensures Place(cmp, items, val) == k
  {
    if k > 0 {
      PlaceIs(cmp, items[1..], val, k - 1);
    }
  }

  lemma {:induction false} PlaceLast<T>(cmp: Option<(T, T) -> int>, items: seq<T>, val: T)
    requires cmp.None?
    ensures Place(cmp, items, val) == |items|
  {
    if items != [] {
      PlaceLast(cmp, items[1..], val);
    }
  }

  lemma ItemsInserted<T>(nodes: seq<ListNode<T>>, k: nat, node: ListNode<T>)
    requires k <= |nodes|
    ensures Items(Inserted(nodes, k, node)) == Inserted(Items(nodes), k, node.data)
  {
  }
}
