/** bts_linklist.c with USE_BTS_LIST: a bucket is a circular list of nodes, searched by key. */
module BtsLinkList {
  import opened Bytes
  import opened Wrappers
  import opened DomainRule
  import opened RuleMap
  import opened CircularList
  import opened Sequences

  type Node = ListHead<Option<Rule>>

  class BtsList {
    const head: Node
    var count: nat
    ghost var nodes: seq<Node>
    ghost var items: seq<Rule>
    ghost var repr: set<object>

    ghost predicate Valid()
      reads this, repr
    {
      && this in repr && head in repr && Within(nodes, repr)
      && IsList(head, nodes)
      && count == |nodes| == |items| && Unique(items) && Carry(nodes, items)
    }

    constructor ()
      ensures Valid() && fresh(repr) && items == []
    {
      var h := new ListHead(None);
      head := h;
      count, nodes, items := 0, [], [];
      new;
      repr := {this, head};
      InitListHead(head);
    }

    /** The node after position j, where the position |nodes| is the head. */
    ghost function At(j: nat): Node
      requires j <= |nodes|
      reads this
    {
      (nodes + [head])[j]
    }

    lemma NextAt(j: nat)
      requires IsList(head, nodes) && j <= |nodes|
      ensures head.next == At(0)
      ensures j < |nodes| ==> At(j) != head && At(j).next == At(j + 1) && At(j).prev == ([head] + nodes)[j]
    {
      var s := [head] + nodes + [head];
      GapPointers(s, 0);
      if j < |nodes| {
        AroundPointers(s, j + 1);
        Apart([head] + nodes, 0, j + 1);
      }
    }

    /** bts_listnode_lookup_by_key, a node found or none. */
    method LookupByKey(key: Rule) returns (node: ListHead?<Option<Rule>>)
      requires Valid()
      ensures var k := IndexOf(items, Name(key));
              node == if k < |items| then nodes[k] else null
    {
      NextAt(0);
      var pos := head.next;
      var next := pos.next;
      ghost var j: nat := 0;
      while pos != head
        invariant j <= |nodes| && pos == At(j) && next == pos.next
        invariant forall i :: 0 <= i < j ==> Name(items[i]) != Name(key)
        decreases |nodes| - j
      {
        NextAt(j);
        assert pos == nodes[j];
        if pos.data.Some? {
          CmpComparesNames(pos.data, Some(key));
          if DmrCmp(pos.data, Some(key)) == 0 {
            FirstIndex(items, Name(key), j);
            return pos;
          }
        }
        pos := next;
        next := pos.next;
        j := j + 1;
      }
      HeadIsLast(j);
      FirstIndex(items, Name(key), j);
      return null;
    }

    lemma HeadIsLast(j: nat)
      requires IsList(head, nodes) && j <= |nodes|
      ensures At(j) == head <==> j == |nodes|
    {
      NextAt(j);
    }

    /** bts_listnode_delete_by_key: its search is the one above, as the comparison fails on missing data. */
    method DeleteByKey(key: Rule)
      requires Valid()
      modifies repr
      ensures Valid() && repr == old(repr)
      ensures items == Remove(old(items), Name(key))
      ensures nodes == Dropped(old(nodes), IndexOf(old(items), Name(key)))
    {
      hide Linked, Distinct, Unique, Remove, IndexOf, Find, Carry, Within, Dropped;
      var pos := LookupByKey(key);
      if pos == null {
        NothingToRemove(nodes, items, Name(key));
        return;
      }
      ghost var k := IndexOf(items, Name(key));
      NeighboursIn(k);
      RemoveKeepsUnique(items, Name(key));
      CarryDropped(nodes, items, Name(key));
      WithinDropped(nodes, repr, k);
      Unlink(pos, head, nodes, k);
      count := count - 1;
      nodes, items := Dropped(nodes, k), Remove(items, Name(key));
    }

    lemma NeighboursIn(k: nat)
      requires Valid() && k < |nodes|
      ensures nodes[k].prev in repr && nodes[k].next in repr
    {
      var s := [head] + nodes + [head];
      AroundPointers(s, k + 1);
    }

    /** bts_listnode_add: a rule of the same name is replaced in its node, else a node goes to the end. */
    method Add(val: Rule)
      requires Valid()
      modifies repr
      ensures Valid() && repr >= old(repr) && fresh(repr - old(repr))
      ensures items == Put(old(items), val)
    {
      hide Linked, Distinct, Unique, Put, IndexOf, Find, Carry, Within;
      PutKeepsUnique(items, val);
      NotAmong(nodes, repr);
      var pos := LookupByKey(val);
      if pos != null {
        ghost var k := IndexOf(items, Name(val));
        OtherNodes(k);
        CarryBefore(nodes, items);
        pos.data := Some(val);
        CarryReplaced(nodes, items, val);
        items := Put(items, val);
      } else {
        LastIn();
        var node := new ListHead(Some(val));
        ListAddTail(node, head, nodes);
        CarryAppended(nodes, items, node, val);
        WithinAppended(nodes, repr, node);
        count := count + 1;
        nodes, items := nodes + [node], Put(items, val);
        repr := repr + {node};
      }
    }

    lemma OtherNodes(k: nat)
      requires Valid() && k < |nodes|
      ensures forall i :: 0 <= i < |nodes| && i != k ==> nodes[i] != nodes[k]
    {
      forall i | 0 <= i < |nodes| && i != k ensures nodes[i] != nodes[k] {
        Apart([head] + nodes, i + 1, k + 1);
      }
    }

    lemma LastIn()
      requires Valid()
      ensures head.prev in repr
    {
      EndsInside(head, nodes);
    }
  }

  ghost predicate Within(nodes: seq<Node>, repr: set<object>) {
    forall i :: 0 <= i < |nodes| ==> nodes[i] in repr
  }

  lemma WithinDropped(nodes: seq<Node>, repr: set<object>, k: nat)
    requires Within(nodes, repr)
    ensures Within(Dropped(nodes, k), repr)
    ensures |Dropped(nodes, k)| == |nodes| - if k < |nodes| then 1 else 0
  {
  }

  lemma WithinAppended(nodes: seq<Node>, repr: set<object>, node: Node)
    requires Within(nodes, repr)
    ensures Within(nodes + [node], repr + {node})
  {
  }

  lemma NotAmong(nodes: seq<Node>, repr: set<object>)
    requires Within(nodes, repr)
    ensures forall x :: x in nodes ==> x in repr
  {
  }

  /** __list_del on node k of a bucket. */
  method Unlink(pos: Node, ghost head: Node, ghost nodes: seq<Node>, ghost k: nat)
    requires IsList(head, nodes) && k < |nodes| && pos == nodes[k]
    modifies pos.prev`next, pos.next`prev
    ensures IsList(head, Dropped(nodes, k))
  {
    hide Linked, Distinct;
    ghost var a, b := nodes[..k], nodes[k + 1..];
    assert nodes == a + [pos] + b;
    Around(head, a, pos, b);
    ListDel(pos.prev, pos.next, head, a, pos, b);
  }

  ghost predicate Carry(nodes: seq<Node>, items: seq<Rule>)
    reads nodes`data
  {
    |nodes| == |items| && forall i :: 0 <= i < |nodes| ==> nodes[i].data == Some(items[i])
  }

  lemma CarryDropped(nodes: seq<Node>, items: seq<Rule>, name: seq<byte>)
    requires Carry(nodes, items)
    ensures Carry(Dropped(nodes, IndexOf(items, name)), Remove(items, name))
  {
  }

  lemma CarryBefore(nodes: seq<Node>, items: seq<Rule>)
    requires Carry(nodes, items)
    ensures |nodes| == |items| && forall i :: 0 <= i < |nodes| ==> nodes[i].data == Some(items[i])
  {
  }

  lemma CarryAppended(nodes: seq<Node>, items: seq<Rule>, node: Node, val: Rule)
    requires Carry(nodes, items) && node.data == Some(val) && IndexOf(items, Name(val)) == |items|
    ensures Carry(nodes + [node], Put(items, val))
  {
  }

  lemma CarryReplaced(nodes: seq<Node>, items: seq<Rule>, val: Rule)
    requires |nodes| == |items|
    requires var k := IndexOf(items, Name(val));
             && k < |items| && nodes[k].data == Some(val)
             && forall i :: 0 <= i < |nodes| && i != k ==> nodes[i].data == Some(items[i])
    ensures Carry(nodes, Put(items, val))
  {
  }

  lemma NothingToRemove(nodes: seq<Node>, items: seq<Rule>, name: seq<byte>)
    requires IndexOf(items, name) == |items| == |nodes|
    ensures Remove(items, name) == items && Dropped(nodes, IndexOf(items, name)) == nodes
  {
  }

  lemma FirstIndex(items: seq<Rule>, name: seq<byte>, j: nat)
    requires j <= |items| && forall i :: 0 <= i < j ==> Name(items[i]) != name
    requires j < |items| ==> Name(items[j]) == name
    ensures IndexOf(items, name) == j
  {
  }
}
