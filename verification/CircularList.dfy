/** The intrusive circular doubly linked lists of bts_list.h. A list is its head and the sequence of its
    entries; the pointers run along head, entries, head in both directions. */
module CircularList {
  import opened Sequences

  class ListHead<T> {
    var next: ListHead<T>
    var prev: ListHead<T>
    var data: T                // the structure the node is embedded in

    /** INIT_LIST_HEAD on a new node. */
    constructor (data: T)
      ensures next == this && prev == this && this.data == data
    {
      next, prev := this, this;
      this.data := data;
    }
  }

  lemma Apart<T>(c: seq<T>, i: nat, j: nat)
    requires Distinct(c) && i < |c| && j < |c|
    ensures i != j ==> c[i] != c[j]
  {
  }

  lemma DistinctPart<T>(c: seq<T>, i: nat, j: nat)
    requires Distinct(c) && i <= j <= |c|
    ensures Distinct(c[i..j])
  {
    forall x, y | 0 <= x < y < j - i ensures c[i..j][x] != c[i..j][y] {
      Apart(c, i + x, i + y);
    }
  }

  /** Neighbours of the segment point at each other. */
  ghost predicate Linked<T>(s: seq<ListHead<T>>)
    reads s`next, s`prev
  {
    && (forall i {:trigger s[i].next} :: 0 <= i < |s| - 1 ==> s[i].next == s[i + 1])
    && (forall i {:trigger s[i].prev} :: 0 < i < |s| ==> s[i].prev == s[i - 1])
  }

  /** The list with this head holds these entries, in order. */
  ghost predicate IsList<T>(head: ListHead<T>, entries: seq<ListHead<T>>)
    reads head`next, head`prev, entries`next, entries`prev
  {
    Distinct([head] + entries) && Linked([head] + entries + [head])
  }

  lemma PartLinked<T>(s: seq<ListHead<T>>, i: nat, j: nat)
    requires Linked(s) && i <= j <= |s|
    ensures Linked(s[i..j])
  {
    var t := s[i..j];
    forall k {:trigger t[k].next} | 0 <= k < |t| - 1 ensures t[k].next == t[k + 1] {
      assert s[i + k].next == s[i + k + 1];
    }
    forall k {:trigger t[k].prev} | 0 < k < |t| ensures t[k].prev == t[k - 1] {
      assert s[i + k].prev == s[i + k - 1];
    }
  }

  lemma Glue<T>(a: seq<ListHead<T>>, b: seq<ListHead<T>>)
    requires Linked(a) && Linked(b) && a != [] && b != []
    requires a[|a| - 1].next == b[0] && b[0].prev == a[|a| - 1]
    ensures Linked(a + b)
  {
  }

  /** Writing the outward pointers of a segment, or pointers outside it, leaves its inner ones alone. */
  lemma OnlyEndsMeet<T>(s: seq<T>, p: T, q: T)
    requires Distinct(s) && s != []
    requires p == s[|s| - 1] || p !in s
    requires q == s[0] || q !in s
    ensures forall i :: 0 <= i < |s| - 1 ==> s[i] != p
    ensures forall i :: 0 < i < |s| ==> s[i] != q
  {
    forall i | 0 <= i < |s| - 1 ensures s[i] != p {
      Apart(s, i, |s| - 1);
    }
    forall i | 0 < i < |s| ensures s[i] != q {
      Apart(s, 0, i);
    }
  }

  /** The pointers around entry x of a list, and the segments on either side of it. */
  lemma Around<T>(head: ListHead<T>, a: seq<ListHead<T>>, x: ListHead<T>, b: seq<ListHead<T>>)
    requires IsList(head, a + [x] + b)
    ensures x.prev == ([head] + a)[|a|] && x.next == (b + [head])[0]
    ensures Linked([head] + a) && Linked(b + [head])
    ensures Distinct([head] + a) && Distinct(b + [head]) && Distinct([head] + (a + b))
    ensures x !in [head] + a && x !in b + [head]
    ensures forall y :: y in a ==> y !in b
  {
    hide Linked, Distinct;
    var s := [head] + (a + [x] + b) + [head];
    var n := |a|;
    assert s[0..n + 1] == [head] + a;
    assert s[n + 2..|s|] == b + [head];
    PartLinked(s, 0, n + 1);
    PartLinked(s, n + 2, |s|);
    AroundPointers(s, n + 1);
    AroundDistinct(head, a, x, b);
  }

  lemma AroundPointers<T>(s: seq<ListHead<T>>, k: nat)
    requires Linked(s) && 0 < k < |s| - 1
    ensures s[k].prev == s[k - 1] && s[k].next == s[k + 1]
  {
  }

  lemma AroundDistinct<T>(head: T, a: seq<T>, x: T, b: seq<T>)
    requires Distinct([head] + (a + [x] + b))
    ensures Distinct([head] + a) && Distinct(b + [head]) && Distinct([head] + (a + b))
    ensures x !in [head] + a && x !in b + [head]
    ensures forall y :: y in a ==> y !in b
  {
    hide Distinct;
    assert [head] + (a + [x] + b) == ([head] + a) + ([x] + b);
    DistinctSplit([head] + a, [x] + b);
    DistinctSplit([x], b);
    assert x in [x] + b && head in [head] + a;
    HeadLast(b, head);
    DistinctJoin([head] + a, b);
    assert [head] + (a + b) == [head] + a + b;
  }

  lemma DistinctSplit<T>(a: seq<T>, b: seq<T>)
    requires Distinct(a + b)
    ensures Distinct(a) && Distinct(b)
    ensures forall y :: y in a ==> y !in b
  {
    hide Distinct;
    var c := a + b;
    assert c[0..|a|] == a && c[|a|..|c|] == b;
    DistinctPart(c, 0, |a|);
    DistinctPart(c, |a|, |c|);
    forall i, j | 0 <= i < |a| && 0 <= j < |b| ensures a[i] != b[j] {
      Apart(c, i, |a| + j);
    }
  }

  lemma HeadLast<T>(b: seq<T>, head: T)
    requires Distinct(b) && head !in b
    ensures Distinct(b + [head])
  {
    DistinctJoin(b, [head]);
  }

  /** Walking the ring from its head visits exactly the entries, so they are determined by the pointers. */
  lemma {:induction false} ListIsUnique<T>(head: ListHead<T>, e1: seq<ListHead<T>>, e2: seq<ListHead<T>>)
    requires IsList(head, e1) && IsList(head, e2)
    ensures e1 == e2
  {
    var c1, c2 := [head] + e1 + [head], [head] + e2 + [head];
    var n := if |e1| <= |e2| then |e1| else |e2|;
    for k := 0 to n
      invariant e1[..k] == e2[..k]
      invariant c1[k] == c2[k]
    {
      assert c1[k].next == c1[k + 1] && c2[k].next == c2[k + 1];
      assert e1[..k + 1] == e1[..k] + [e1[k]] && e2[..k + 1] == e2[..k] + [e2[k]];
    }
    assert c1[n].next == c1[n + 1] && c2[n].next == c2[n + 1];
    Apart([head] + e1, 0, if n < |e1| then n + 1 else 0);
    Apart([head] + e2, 0, if n < |e2| then n + 1 else 0);
    assert e1 == e1[..n] && e2 == e2[..n];
  }

  method InitListHead<T>(list: ListHead<T>)
    modifies list`next, list`prev
    ensures IsList(list, [])
  {
    list.next := list;
    list.prev := list;
  }

  method ListEmpty<T>(head: ListHead<T>, ghost entries: seq<ListHead<T>>) returns (empty: bool)
    requires IsList(head, entries)
    ensures empty <==> entries == []
  {
    ghost var c := [head] + entries + [head];
    assert c[0].next == c[1];
    empty := head.next == head;
  }

  method ListIsSingular<T>(head: ListHead<T>, ghost entries: seq<ListHead<T>>) returns (singular: bool)
    requires IsList(head, entries)
    ensures singular <==> |entries| == 1
  {
    ghost var c := [head] + entries + [head];
    assert c[0].next == c[1] && c[|c| - 1].prev == c[|c| - 2];
    Apart([head] + entries, if |entries| < 1 then 0 else 1, |entries|);
    singular := head.next != head && head.next == head.prev;
  }

  /** __list_add */
  method ListAddBetween<T>(node: ListHead<T>, prev: ListHead<T>, next: ListHead<T>)
    requires node != prev && node != next
    modifies node`next, node`prev, prev`next, next`prev
    ensures node.next == next && node.prev == prev && prev.next == node && next.prev == node
  {
    next.prev := node;
    node.next := next;
    node.prev := prev;
    prev.next := node;
  }

  /** list_add_tail: the new node goes before the head. */
  method ListAddTail<T>(node: ListHead<T>, head: ListHead<T>, ghost entries: seq<ListHead<T>>)
    requires IsList(head, entries) && node !in [head] + entries
    modifies node`next, node`prev, head`prev, head.prev`next
    ensures IsList(head, entries + [node])
  {
    ghost var s := [head] + entries;
    assert [head] + entries + [head] == s + [head];
    Opened(s, head);
    ListAddBetween(node, head.prev, head);
    Single(node);
    Single(head);
    Glue(s, [node]);
    Glue(s + [node], [head]);
    assert [head] + (entries + [node]) == s + [node];
    assert [head] + (entries + [node]) + [head] == s + [node] + [head];
  }

  lemma Single<T>(x: ListHead<T>)
    ensures Linked([x])
  {
  }

  /** The last link of a segment, and the segment before it. */
  lemma Opened<T>(s: seq<ListHead<T>>, x: ListHead<T>)
    requires Linked(s + [x]) && s != []
    ensures Linked(s) && s[|s| - 1].next == x && x.prev == s[|s| - 1]
  {
    var t := s + [x];
    assert t[0..|s|] == s;
    PartLinked(t, 0, |s|);
    assert t[|s| - 1].next == t[|s|] && t[|s|].prev == t[|s| - 1];
  }

  /** __list_del: entry x leaves the list. */
  method ListDel<T>(prev: ListHead<T>, next: ListHead<T>, ghost head: ListHead<T>, ghost a: seq<ListHead<T>>,
                    ghost x: ListHead<T>, ghost b: seq<ListHead<T>>)
    requires IsList(head, a + [x] + b) && prev == x.prev && next == x.next
    modifies prev`next, next`prev
    ensures IsList(head, a + b)
    ensures x.next == old(x.next) && x.prev == old(x.prev)
  {
    Around(head, a, x, b);
    OnlyEndsMeet([head] + a, prev, next);
    OnlyEndsMeet(b + [head], prev, next);
    next.prev := prev;
    prev.next := next;
    Glue([head] + a, b + [head]);
    assert [head] + (a + b) + [head] == ([head] + a) + (b + [head]);
  }

  /** The two segments of a list on either side of a gap between neighbours. */
  lemma AtGap<T>(head: ListHead<T>, a: seq<ListHead<T>>, b: seq<ListHead<T>>)
    requires IsList(head, a + b)
    ensures Linked([head] + a) && Linked(b + [head])
    ensures Distinct([head] + a) && Distinct(b + [head])
    ensures ([head] + a)[|a|].next == (b + [head])[0] && (b + [head])[0].prev == ([head] + a)[|a|]
    ensures forall y :: y in a ==> y !in b
  {
    hide Linked, Distinct;
    var s := [head] + (a + b) + [head];
    assert s[0..|a| + 1] == [head] + a;
    assert s[|a| + 1..|s|] == b + [head];
    PartLinked(s, 0, |a| + 1);
    PartLinked(s, |a| + 1, |s|);
    GapPointers(s, |a|);
    GapDistinct(head, a, b);
  }

  lemma GapPointers<T>(s: seq<ListHead<T>>, k: nat)
    requires Linked(s) && k < |s| - 1
    ensures s[k].next == s[k + 1] && s[k + 1].prev == s[k]
  {
  }

  lemma GapDistinct<T>(head: T, a: seq<T>, b: seq<T>)
    requires Distinct([head] + (a + b))
    ensures Distinct([head] + a) && Distinct(b + [head])
    ensures forall y :: y in a ==> y !in b
  {
    hide Distinct;
    assert [head] + (a + b) == ([head] + a) + b;
    DistinctSplit([head] + a, b);
    assert head in [head] + a;
    HeadLast(b, head);
  }

  /** The entries of a non-empty list, as a segment. */
  lemma Entries<T>(list: ListHead<T>, p: seq<ListHead<T>>)
    requires IsList(list, p) && p != []
    ensures Linked(p) && Distinct(p) && list !in p
    ensures list.next == p[0] && list.prev == p[|p| - 1] && p[0].prev == list && p[|p| - 1].next == list
  {
    hide Linked, Distinct;
    var s := [list] + p + [list];
    assert s[1..|s| - 1] == p;
    PartLinked(s, 1, |s| - 1);
    GapPointers(s, 0);
    GapPointers(s, |p|);
    var c := [list] + p;
    assert c[1..|c|] == p;
    DistinctPart(c, 1, |c|);
    forall i | 0 <= i < |p| ensures p[i] != list {
      assert p[i] == c[i + 1];
      Apart(c, 0, i + 1);
    }
  }

  lemma DistinctJoin<T>(a: seq<T>, b: seq<T>)
    requires Distinct(a) && Distinct(b) && forall y :: y in a ==> y !in b
    ensures Distinct(a + b)
  {
    var c := a + b;
    forall i, j | 0 <= i < j < |c| ensures c[i] != c[j] {
      if i < |a| <= j {
        assert c[i] in a && c[j] == b[j - |a|];
      }
    }
  }

  predicate Outside<T(==)>(x: T, head: T, entries: seq<T>) {
    x != head && x !in entries
  }

  lemma OutsideParts<T>(x: T, head: T, a: seq<T>, b: seq<T>)
    requires Outside(x, head, a + b)
    ensures x != head && x !in a && x !in b && x !in [head] + a && x !in b + [head]
  {
    forall i | 0 <= i < |a| ensures a[i] != x { assert a[i] == (a + b)[i]; }
    forall i | 0 <= i < |b| ensures b[i] != x { assert b[i] == (a + b)[|a| + i]; }
  }

  /** __list_splice: the entries of list go into the gap between prev and next. */
  method SpliceBetween<T>(list: ListHead<T>, prev: ListHead<T>, next: ListHead<T>, ghost p: seq<ListHead<T>>,
                          ghost head: ListHead<T>, ghost a: seq<ListHead<T>>, ghost b: seq<ListHead<T>>)
    requires IsList(list, p) && p != [] && IsList(head, a + b)
    requires prev == ([head] + a)[|a|] && next == (b + [head])[0]
    requires Outside(list, head, a + b) && forall y :: y in p ==> Outside(y, head, a + b)
    modifies list.next`prev, prev`next, list.prev`next, next`prev
    ensures IsList(head, a + p + b)
    ensures list.next == old(list.next) && list.prev == old(list.prev)
  {
    hide Distinct;
    var first := list.next;
    var last := list.prev;
    Entries(list, p);
    AtGap(head, a, b);
    assert first in p && last in p && prev in [head] + a && next in b + [head];
    OutsideParts(first, head, a, b);
    OutsideParts(last, head, a, b);
    OnlyEndsMeet([head] + a, prev, next);
    OnlyEndsMeet(b + [head], prev, next);
    OnlyEndsMeet(p, last, first);
    OnlyEndsMeet([head] + a, last, first);
    OnlyEndsMeet(b + [head], last, first);
    OnlyEndsMeet(p, prev, next);
    first.prev := prev;
    prev.next := first;
    last.next := next;
    next.prev := last;
    Glue([head] + a, p);
    Glue([head] + a + p, b + [head]);
    SplicedDistinct(head, a, p, b);
    assert [head] + (a + p + b) + [head] == ([head] + a + p) + (b + [head]);
  }

  lemma SplicedDistinct<T>(head: T, a: seq<T>, p: seq<T>, b: seq<T>)
    requires Distinct([head] + a) && Distinct(p) && Distinct(b + [head])
    requires forall y :: y in a ==> y !in b
    requires forall y :: y in p ==> Outside(y, head, a + b)
    ensures Distinct([head] + (a + p + b))
  {
    hide Distinct;
    forall y | y in p ensures y != head && y !in a && y !in b {
      OutsideParts(y, head, a, b);
    }
    DistinctJoin([head] + a, p);
    assert (b + [head])[0..|b|] == b;
    DistinctPart(b + [head], 0, |b|);
    forall i | 0 <= i < |b| ensures b[i] != head {
      assert (b + [head])[i] == b[i];
      Apart(b + [head], i, |b|);
    }
    DistinctJoin([head] + a + p, b);
    assert [head] + (a + p + b) == ([head] + a + p) + b;
  }

  /** list_splice: the entries of list come first. */
  method ListSplice<T>(list: ListHead<T>, head: ListHead<T>, ghost p: seq<ListHead<T>>, ghost e: seq<ListHead<T>>)
    requires IsList(list, p) && IsList(head, e)
    requires Outside(list, head, e) && forall y :: y in p ==> Outside(y, head, e)
    modifies list.next`prev, head`next, list.prev`next, head.next`prev
    ensures IsList(head, p + e)
  {
    hide Linked, Distinct;
    var empty := ListEmpty(list, p);
    if !empty {
      assert [] + e == e && [head] + [] == [head];
      AtGap(head, [], e);
      SpliceBetween(list, head, head.next, p, head, [], e);
      assert [] + p + e == p + e;
    } else {
      assert p + e == e;
    }
  }

  /** list_splice_tail: the entries of list come last. */
  method ListSpliceTail<T>(list: ListHead<T>, head: ListHead<T>, ghost p: seq<ListHead<T>>, ghost e: seq<ListHead<T>>)
    requires IsList(list, p) && IsList(head, e)
    requires Outside(list, head, e) && forall y :: y in p ==> Outside(y, head, e)
    modifies list.next`prev, head.prev`next, list.prev`next, head`prev
    ensures IsList(head, e + p)
  {
    hide Linked, Distinct;
    var empty := ListEmpty(list, p);
    assert e + [] == e && [] + [head] == [head];
    if !empty {
      AtGap(head, e, []);
      SpliceBetween(list, head.prev, head, p, head, e, []);
      assert e + p + [] == e + p;
    } else {
      assert e + p == e;
    }
  }

  /** The pointers __list_cut_position looks at, and the two segments it keeps. */
  lemma AtCut<T>(head: ListHead<T>, p: seq<ListHead<T>>, q: seq<ListHead<T>>)
    requires IsList(head, p + q) && p != []
    ensures Linked(p) && Distinct(p) && head !in p && head !in q
    ensures Linked(q + [head]) && Distinct(q + [head])
    ensures head.next == p[0] && p[|p| - 1].next == (q + [head])[0]
    ensures forall y :: y in p ==> y !in q
  {
    hide Linked, Distinct;
    AtGap(head, p, q);
    var s := [head] + p;
    assert s[1..|s|] == p;
    PartLinked(s, 1, |s|);
    DistinctPart(s, 1, |s|);
    GapPointers(s, 0);
    forall i | 0 <= i < |p| ensures p[i] != head {
      assert p[i] == s[i + 1];
      Apart(s, 0, i + 1);
    }
    forall i | 0 <= i < |q| ensures q[i] != head {
      assert (q + [head])[i] == q[i];
      Apart(q + [head], i, |q|);
    }
  }

  /** __list_cut_position */
  method CutBetween<T>(list: ListHead<T>, head: ListHead<T>, entry: ListHead<T>,
                       ghost p: seq<ListHead<T>>, ghost q: seq<ListHead<T>>)
    requires IsList(head, p + q) && p != [] && entry == p[|p| - 1] && Outside(list, head, p + q)
    modifies list`next, list`prev, head.next`prev, entry`next, head`next, entry.next`prev
    ensures IsList(list, p) && IsList(head, q)
  {
    hide Distinct;
    var newFirst := entry.next;
    AtCut(head, p, q);
    OutsideParts(list, head, p, q);
    assert p[0] in p && entry in p && newFirst in q + [head];
    OnlyEndsMeet(p, entry, p[0]);
    OnlyEndsMeet(p, head, newFirst);
    OnlyEndsMeet(q + [head], entry, p[0]);
    OnlyEndsMeet(q + [head], head, newFirst);
    list.next := head.next;
    list.next.prev := list;
    list.prev := entry;
    entry.next := list;
    head.next := newFirst;
    newFirst.prev := head;
    Glue([list], p);
    Glue([list] + p, [list]);
    Glue([head], q + [head]);
    assert [head] + (q + [head]) == [head] + q + [head];
    HeadDistinct(list, p);
    assert (q + [head])[0..|q|] == q;
    DistinctPart(q + [head], 0, |q|);
    HeadDistinct(head, q);
  }

  lemma HeadDistinct<T>(head: T, e: seq<T>)
    requires Distinct(e) && head !in e
    ensures Distinct([head] + e)
  {
    DistinctJoin([head], e);
  }

  /** list_cut_position at entry number k of head followed by e. An empty head, and an entry that is not on a
      list of at most one, leave everything as it was. */
  method ListCutPosition<T>(list: ListHead<T>, head: ListHead<T>, entry: ListHead<T>,
                            ghost e: seq<ListHead<T>>, ghost k: nat)
    requires IsList(head, e) && Outside(list, head, e)
    requires if entry in [head] + e then k <= |e| && entry == ([head] + e)[k] else |e| <= 1
    modifies list`next, list`prev, head.next`prev, entry`next, head`next, entry.next`prev
    ensures entry in [head] + e && e != [] ==> IsList(list, e[..k]) && IsList(head, e[k..])
    ensures entry !in [head] + e || e == [] ==>
              && IsList(head, e) && unchanged(list, head, entry)
              && unchanged(old(head.next)) && unchanged(old(entry.next))
  {
    hide Linked, Distinct;
    var empty := ListEmpty(head, e);
    if empty {
      return;
    }
    var singular := ListIsSingular(head, e);
    if singular && head.next != entry && head != entry {
      assert e + [] == e;
      AtCut(head, e, []);
      return;
    }
    if singular {
      assert e + [] == e;
      AtCut(head, e, []);
      assert head.next == e[0] == ([head] + e)[1];
    }
    assert entry in [head] + e;
    if entry == head {
      KeepsHead(head, e, k);
      InitListHead(list);
    } else {
      assert entry == e[k - 1] && e[..k] + e[k..] == e;
      CutBetween(list, head, entry, e[..k], e[k..]);
    }
  }

  lemma KeepsHead<T>(head: T, e: seq<T>, k: nat)
    requires Distinct([head] + e) && k <= |e| && ([head] + e)[k] == head
    ensures k == 0 && e[..k] == [] && e[k..] == e
  {
    Apart([head] + e, 0, k);
  }

  /** Cutting at any entry, the head and the last one included, and splicing back restores the list; except
      that an empty head leaves list alone, so that the splice brings in whatever list held. */
  method CutThenSplice<T>(list: ListHead<T>, head: ListHead<T>, entry: ListHead<T>,
                          ghost e: seq<ListHead<T>>, ghost k: nat, ghost r: seq<ListHead<T>>)
    requires IsList(head, e) && Outside(list, head, e) && k <= |e| && entry == ([head] + e)[k]
    requires e == [] ==> IsList(list, r) && forall y :: y in r ==> Outside(y, head, e)
    modifies list, list.next, list.prev, head, e
    ensures IsList(head, if e == [] then r else e)
    ensures IsList(head, e) <==> e != [] || r == []
  {
    hide IsList, Linked, Distinct, Outside;
    Neighbours(head, e, k);
    ListDistinct(head, e);
    ListCutPosition(list, head, entry, e, k);
    ghost var p, q := r, e;
    if e != [] {
      p, q := e[..k], e[k..];
      CutHolds(list, head, e, k);
    } else {
      EndsInside(head, e);
      assert r + e == r;
    }
    ListSplice(list, head, p, q);
    RestoredIff(head, e, r);
  }

  /** The two lists between the cut and the splice. */
  lemma CutHolds<T>(list: ListHead<T>, head: ListHead<T>, e: seq<ListHead<T>>, k: nat)
    requires Outside(list, head, e) && k <= |e| && Distinct([head] + e)
    requires IsList(list, e[..k]) && IsList(head, e[k..])
    ensures e[..k] + e[k..] == e && Outside(list, head, e[k..])
    ensures forall y :: y in e[..k] ==> Outside(y, head, e[k..])
    ensures On(list.next, list, e) && On(list.prev, list, e)
    ensures On(head.next, head, e) && On(head.prev, head, e)
  {
    hide IsList, Linked, Distinct, Outside;
    CutParts(head, e, k);
    OutsideSplit(list, head, e, k);
    EndsInside(list, e[..k]);
    EndsInside(head, e[k..]);
    InPart(list, list.next, e, 0, k);
    InPart(list, list.prev, e, 0, k);
    InPart(head, head.next, e, k, |e|);
    InPart(head, head.prev, e, k, |e|);
  }

  lemma InPart<T>(x: T, y: T, e: seq<T>, i: nat, j: nat)
    requires i <= j <= |e|
    ensures (i == 0 && On(y, x, e[..j])) || (j == |e| && On(y, x, e[i..])) ==> On(y, x, e)
  {
  }

  lemma RestoredIff<T>(head: ListHead<T>, e: seq<ListHead<T>>, r: seq<ListHead<T>>)
    requires IsList(head, if e == [] then r else e)
    ensures IsList(head, e) <==> e != [] || r == []
  {
    hide IsList;
    if IsList(head, e) {
      ListIsUnique(head, e, if e == [] then r else e);
    }
  }

  lemma OutsideSplit<T>(x: T, head: T, e: seq<T>, k: nat)
    requires Outside(x, head, e) && k <= |e|
    ensures Outside(x, head, e[k..])
  {
  }

  lemma ListDistinct<T>(head: ListHead<T>, e: seq<ListHead<T>>)
    requires IsList(head, e)
    ensures Distinct([head] + e)
  {
  }

  /** The pointers a cut writes through stay within the list. */
  lemma Neighbours<T>(head: ListHead<T>, e: seq<ListHead<T>>, k: nat)
    requires IsList(head, e) && k <= |e|
    ensures var entry := ([head] + e)[k];
            On(head.next, head, e) && On(entry, head, e) && On(entry.next, head, e)
  {
    var s := [head] + e + [head];
    GapPointers(s, 0);
    GapPointers(s, k);
    assert s[k] == ([head] + e)[k];
  }

  /** A node of this list, its head included. */
  predicate On<T(==)>(x: T, head: T, e: seq<T>) {
    x == head || x in e
  }

  lemma EndsInside<T>(head: ListHead<T>, e: seq<ListHead<T>>)
    requires IsList(head, e)
    ensures On(head.next, head, e) && On(head.prev, head, e)
  {
    var s := [head] + e + [head];
    GapPointers(s, 0);
    GapPointers(s, |e|);
    assert s[|e|] == ([head] + e)[|e|];
  }

  lemma CutParts<T>(head: T, e: seq<T>, k: nat)
    requires Distinct([head] + e) && k <= |e|
    ensures forall y :: y in e[..k] ==> Outside(y, head, e[k..])
  {
    hide Distinct;
    assert [head] + e[..k] + e[k..] == [head] + e;
    forall i, j | 0 <= i < k && k <= j < |e| ensures e[i] != e[j] {
      Apart([head] + e, i + 1, j + 1);
      assert ([head] + e)[i + 1] == e[i] && ([head] + e)[j + 1] == e[j];
    }
    forall i | 0 <= i < k ensures e[i] != head {
      Apart([head] + e, 0, i + 1);
      assert ([head] + e)[i + 1] == e[i];
    }
  }

  /** A run in which the round trip fails: the empty head ends up with the old entry of the other list. */
  method EmptyHeadGainsOldEntry<T>(data: T) returns (head: ListHead<T>, node: ListHead<T>)
    ensures fresh(head) && fresh(node) && head != node && IsList(head, [node])
  {
    head := new ListHead(data);
    node := new ListHead(data);
    var list := new ListHead(data);
    ListAddTail(node, list, []);
    assert [] + [node] == [node];
    EndsInside(list, [node]);
    CutThenSplice(list, head, head, [], 0, [node]);
  }
}
