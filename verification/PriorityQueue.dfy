/** The array heap of pqueue.c: trickling with a hole, growth by doubling, arbitrary removal,
    and the position callback. */
module PriorityQueue {
  import opened Sequences

  // ---- The order ----

  /** cmp's sign is a total preorder. */
  ghost predicate IsOrder<T(!new)>(cmp: (T, T) -> int) {
    && (forall a, b :: cmp(a, b) < 0 <==> cmp(b, a) > 0)
    && (forall a, b, c :: cmp(a, b) <= 0 && cmp(b, c) <= 0 ==> cmp(a, c) <= 0)
  }

  lemma Transitive<T(!new)>(cmp: (T, T) -> int, a: T, b: T, c: T)
    requires IsOrder(cmp) && cmp(a, b) <= 0 && cmp(b, c) <= 0
    ensures cmp(a, c) <= 0
  {
  }

  lemma Converse<T(!new)>(cmp: (T, T) -> int, a: T, b: T)
    requires IsOrder(cmp)
    ensures cmp(a, b) >= 0 <==> cmp(b, a) <= 0
  {
    assert cmp(a, b) < 0 <==> cmp(b, a) > 0;
  }

  function Parent(i: nat): (p: nat)
    requires i > 0
    ensures p < i
  {
    (i - 1) / 2
  }

  /** Every element but those in `skip` is not before its parent. */
  ghost predicate Heap<T>(cmp: (T, T) -> int, s: seq<T>) {
    forall i :: 0 < i < |s| ==> cmp(s[Parent(i)], s[i]) <= 0
  }

  /** Heap order except between the hole and its parent; children of the hole are after its parent. */
  ghost predicate HeapButUp<T>(cmp: (T, T) -> int, s: seq<T>, hole: nat) {
    && (forall i :: 0 < i < |s| && i != hole ==> cmp(s[Parent(i)], s[i]) <= 0)
    && (forall i :: 0 < i < |s| && Parent(i) == hole && hole > 0 ==> cmp(s[Parent(hole)], s[i]) <= 0)
  }

  /** Heap order except between the hole and its children; those are after the hole's parent. */
  ghost predicate HeapButDown<T>(cmp: (T, T) -> int, s: seq<T>, hole: nat) {
    && (forall i :: 0 < i < |s| && Parent(i) != hole ==> cmp(s[Parent(i)], s[i]) <= 0)
    && (forall i :: 0 < i < |s| && Parent(i) == hole && hole > 0 ==> cmp(s[Parent(hole)], s[i]) <= 0)
  }

  lemma {:induction false} RootIsFirst<T(!new)>(cmp: (T, T) -> int, s: seq<T>, i: nat)
    requires IsOrder(cmp) && Heap(cmp, s) && i < |s|
    ensures cmp(s[0], s[i]) <= 0
  {
    if i > 0 {
      RootIsFirst(cmp, s, Parent(i));
    } else {
      assert cmp(s[0], s[0]) < 0 <==> cmp(s[0], s[0]) > 0;
    }
  }

  function Swap<T>(s: seq<T>, i: nat, j: nat): (r: seq<T>)
    requires i < |s| && j < |s|
    ensures |r| == |s|
  {
    s[i := s[j]][j := s[i]]
  }

  lemma SwapKeepsMultiset<T>(s: seq<T>, i: nat, j: nat)
    requires i < |s| && j < |s|
    ensures multiset(Swap(s, i, j)) == multiset(s)
  {
  }

  lemma UpStep<T(!new)>(cmp: (T, T) -> int, s: seq<T>, hole: nat)
    requires IsOrder(cmp) && 0 < hole < |s| && HeapButUp(cmp, s, hole)
    requires cmp(s[hole], s[Parent(hole)]) < 0
    ensures HeapButUp(cmp, Swap(s, hole, Parent(hole)), Parent(hole))
  {
    var p := Parent(hole);
    var r := Swap(s, hole, p);
    forall i | 0 < i < |r| && i != p
      ensures cmp(r[Parent(i)], r[i]) <= 0
    {
      assert cmp(s[hole], s[p]) <= 0;
      if Parent(i) == p && i != hole { assert cmp(s[p], s[i]) <= 0; }
    }
    forall i | 0 < i < |r| && Parent(i) == p && p > 0
      ensures cmp(r[Parent(p)], r[i]) <= 0
    {
      assert cmp(s[Parent(p)], s[p]) <= 0;
      if i != hole { assert cmp(s[p], s[i]) <= 0; }
    }
  }

  lemma UpDone<T(!new)>(cmp: (T, T) -> int, s: seq<T>, hole: nat)
    requires IsOrder(cmp) && hole < |s| && HeapButUp(cmp, s, hole)
    requires hole > 0 ==> cmp(s[hole], s[Parent(hole)]) >= 0
    ensures Heap(cmp, s)
  {
    if hole > 0 { assert cmp(s[Parent(hole)], s[hole]) <= 0; }
  }

  /** The child trickle_down moves up: the first of the two. */
  ghost predicate FirstChild<T>(cmp: (T, T) -> int, s: seq<T>, hole: nat, which: nat) {
    && which < |s| && (which == 2 * hole + 1 || which == 2 * hole + 2)
    && (forall i :: 0 < i < |s| && Parent(i) == hole ==> cmp(s[which], s[i]) <= 0)
  }

  lemma DownStep<T(!new)>(cmp: (T, T) -> int, s: seq<T>, hole: nat, which: nat)
    requires IsOrder(cmp) && hole < |s| && HeapButDown(cmp, s, hole) && FirstChild(cmp, s, hole, which)
    requires cmp(s[which], s[hole]) <= 0
    ensures HeapButDown(cmp, Swap(s, hole, which), which)
  {
    hide IsOrder;
    assert Parent(which) == hole;
    var r := Swap(s, hole, which);
    forall i | 0 < i < |r| && Parent(i) != which
      ensures cmp(r[Parent(i)], r[i]) <= 0
    {
      if i == hole { assert cmp(s[Parent(hole)], s[which]) <= 0; }
    }
    forall i | 0 < i < |r| && Parent(i) == which
      ensures cmp(r[Parent(which)], r[i]) <= 0
    {
      assert cmp(s[which], s[i]) <= 0;
    }
  }

  lemma DownAtLeaf<T(!new)>(cmp: (T, T) -> int, s: seq<T>, hole: nat)
    requires HeapButDown(cmp, s, hole) && |s| <= 2 * hole + 1
    ensures Heap(cmp, s)
  {
  }

  lemma DownStops<T(!new)>(cmp: (T, T) -> int, s: seq<T>, hole: nat, which: nat)
    requires IsOrder(cmp) && hole < |s| && HeapButDown(cmp, s, hole) && FirstChild(cmp, s, hole, which)
    requires cmp(s[which], s[hole]) > 0
    ensures Heap(cmp, s)
  {
    forall i | 0 < i < |s| ensures cmp(s[Parent(i)], s[i]) <= 0 {
      if Parent(i) == hole {
        assert cmp(s[hole], s[which]) <= 0 && cmp(s[which], s[i]) <= 0;
      }
    }
  }

  /** The last element replaces the one at `hole`. */
  function Refill<T>(s: seq<T>, hole: nat): (r: seq<T>)
    requires hole < |s|
    ensures |r| == |s| - 1
  {
    if hole == |s| - 1 then s[..hole] else s[..|s| - 1][hole := s[|s| - 1]]
  }

  lemma RefillUp<T(!new)>(cmp: (T, T) -> int, s: seq<T>, hole: nat)
    requires IsOrder(cmp) && Heap(cmp, s) && 0 < hole < |s| - 1
    requires cmp(s[|s| - 1], s[Parent(hole)]) < 0
    ensures HeapButUp(cmp, Refill(s, hole), hole)
  {
    hide IsOrder;
    var r := Refill(s, hole);
    var p := Parent(hole);
    forall i | 0 < i < |r| && i != hole ensures cmp(r[Parent(i)], r[i]) <= 0 {
      if Parent(i) == hole {
        Transitive(cmp, s[p], s[hole], s[i]);
        Transitive(cmp, s[|s| - 1], s[p], s[i]);
      }
    }
    forall i | 0 < i < |r| && Parent(i) == hole ensures cmp(r[p], r[i]) <= 0 {
      Transitive(cmp, s[p], s[hole], s[i]);
    }
  }

  lemma RefillDown<T(!new)>(cmp: (T, T) -> int, s: seq<T>, hole: nat)
    requires IsOrder(cmp) && Heap(cmp, s) && hole < |s| - 1
    requires hole > 0 ==> cmp(s[|s| - 1], s[Parent(hole)]) >= 0
    ensures HeapButDown(cmp, Refill(s, hole), hole)
  {
    hide IsOrder;
    var r := Refill(s, hole);
    if hole > 0 {
      Converse(cmp, s[|s| - 1], s[Parent(hole)]);
    }
    forall i | 0 < i < |r| && Parent(i) == hole && hole > 0 ensures cmp(r[Parent(hole)], r[i]) <= 0 {
      Transitive(cmp, s[Parent(hole)], s[hole], s[i]);
    }
  }

  lemma RefillMultiset<T>(s: seq<T>, hole: nat)
    requires hole < |s|
    ensures multiset(Refill(s, hole)) == multiset(s) - multiset{s[hole]}
  {
    var n := |s| - 1;
    assert s == s[..n] + [s[n]];
    if hole < n { assert s[..n] == s[..hole] + [s[hole]] + s[hole + 1..n]; }
    if hole < n { assert Refill(s, hole) == s[..hole] + [s[n]] + s[hole + 1..n]; }
  }

  // ---- Reported positions ----

  /** The last position reported for every element, except the one in the hole, is where it is. */
  ghost predicate PlacedBut<T>(s: seq<T>, pos: map<T, int>, hole: int) {
    forall i :: 0 <= i < |s| && i != hole ==> s[i] in pos && pos[s[i]] == i
  }

  ghost predicate Placed<T>(s: seq<T>, pos: map<T, int>) {
    PlacedBut(s, pos, -1)
  }

  lemma SwapPlaces<T>(s: seq<T>, pos: map<T, int>, hole: nat, j: nat)
    requires Distinct(s) && hole < |s| && j < |s| && hole != j && PlacedBut(s, pos, hole)
    ensures Distinct(Swap(s, hole, j)) && PlacedBut(Swap(s, hole, j), pos[s[j] := hole], j)
  {
  }

  lemma RefillPlaces<T>(s: seq<T>, pos: map<T, int>, hole: nat)
    requires Distinct(s) && hole < |s| && Placed(s, pos)
    ensures Distinct(Refill(s, hole)) && PlacedBut(Refill(s, hole), pos, hole)
  {
  }

  /** What trickling keeps besides order: the elements, and (when tracked) the reported positions. */
  ghost predicate Keeps<T>(s: seq<T>, all: multiset<T>, track: bool, pos: map<T, int>, hole: int) {
    && multiset(s) == all
    && (track ==> Distinct(s) && PlacedBut(s, pos, hole))
  }

  lemma SwapKeeps<T>(s: seq<T>, all: multiset<T>, track: bool, pos: map<T, int>, hole: nat, j: nat)
    requires hole < |s| && j < |s| && hole != j && Keeps(s, all, track, pos, hole)
    ensures Keeps(Swap(s, hole, j), all, track, if track then pos[s[j] := hole] else pos, j)
  {
    SwapKeepsMultiset(s, hole, j);
    if track { SwapPlaces(s, pos, hole, j); }
  }

  lemma SettleKeeps<T>(s: seq<T>, all: multiset<T>, track: bool, pos: map<T, int>, hole: nat)
    requires hole < |s| && Keeps(s, all, track, pos, hole)
    ensures Keeps(s, all, track, if track then pos[s[hole] := hole] else pos, -1)
  {
  }

  // ---- The queue ----

  class PQueue<T(0, ==, !new)> {
    var slots: array<T>
    var size: nat
    const cmp: (T, T) -> int
    const notify: bool            // whether an update callback is installed
    var pos: map<T, int>          // what the callback was last told, by node

    ghost predicate Room()
      reads this
    {
      size + 2 <= slots.Length && IsOrder(cmp)
    }

    ghost predicate Valid()
      reads this, slots
    {
      Room() && Heap(cmp, slots[..size])
    }

    ghost function Elements(): seq<T>
      reads this, slots
      requires Room()
    {
      slots[..size]
    }

    /** pqueue_create: 32 slots. */
    constructor (cmp: (T, T) -> int, notify: bool)
      requires IsOrder(cmp)
      ensures Valid() && Elements() == [] && fresh(slots)
      ensures this.cmp == cmp && this.notify == notify
    {
      this.cmp, this.notify := cmp, notify;
      slots := new T[32];
      size, pos := 0, map[];
    }

    method Update(node: T, index: nat)
      modifies this`pos
      ensures pos == if notify then old(pos)[node := index] else old(pos)
    {
      if notify { pos := pos[node := index]; }
    }

    /** The hole's content seen as already stored. */
    ghost function Filled(n: nat, hole: nat, x: T): seq<T>
      reads this, slots
      requires hole < n <= slots.Length
    {
      slots[..n][hole := x]
    }

    /** One round of trickle_up: the parent comes down into the hole. */
    method StepUp(index: nat, tmp: T, ghost n: nat, ghost all: multiset<T>, ghost track: bool)
      requires IsOrder(cmp) && 0 < index < n <= slots.Length && (track ==> notify)
      requires HeapButUp(cmp, Filled(n, index, tmp), index) && Keeps(Filled(n, index, tmp), all, track, pos, index)
      requires cmp(tmp, slots[Parent(index)]) < 0
      modifies slots, this`pos
      ensures HeapButUp(cmp, Filled(n, Parent(index), tmp), Parent(index))
      ensures Keeps(Filled(n, Parent(index), tmp), all, track, pos, Parent(index))
    {
      hide HeapButUp, Heap, Keeps, Swap, IsOrder;
      var p := Parent(index);
      ghost var v := Filled(n, index, tmp);
      UpStep(cmp, v, index);
      SwapKeeps(v, all, track, pos, index, p);
      slots[index] := slots[p];
      Update(slots[index], index);
      SwapFills(v, index, p, Filled(n, p, tmp));
      KeepsUntracked(Filled(n, p, tmp), all, track, p);
    }

    method TrickleUp(start: nat, ghost n: nat, ghost all: multiset<T>, ghost track: bool)
      requires IsOrder(cmp) && start < n <= slots.Length && (track ==> notify)
      requires HeapButUp(cmp, slots[..n], start) && Keeps(slots[..n], all, track, pos, start)
      modifies slots, this`pos
      ensures Heap(cmp, slots[..n]) && Keeps(slots[..n], all, track, pos, -1)
    {
      hide HeapButUp, Heap, Keeps, Swap, IsOrder;
      var tmp := slots[start];
      var index: nat := start;
      assert Filled(n, index, tmp) == slots[..n];
      while index > 0 && cmp(tmp, slots[Parent(index)]) < 0
        invariant index < n
        invariant HeapButUp(cmp, Filled(n, index, tmp), index)
        invariant Keeps(Filled(n, index, tmp), all, track, pos, index)
      {
        StepUp(index, tmp, n, all, track);
        index := Parent(index);
      }
      UpDone(cmp, Filled(n, index, tmp), index);
      Settle(index, tmp, n, all, track);
    }

    /** The child to compare with; the right one only when it exists and is strictly before the left. */
    method PickChild(index: nat, ghost tmp: T) returns (which: nat)
      requires IsOrder(cmp) && size <= slots.Length && index < size / 2
      ensures index < which < size && FirstChild(cmp, Filled(size, index, tmp), index, which)
    {
      if 2 * index + 2 < size && cmp(slots[2 * index + 1], slots[2 * index + 2]) > 0 {
        which := 2 * index + 2;
      } else {
        which := 2 * index + 1;
      }
      ChildIsFirst(cmp, Filled(size, index, tmp), index, which);
    }

    method TrickleDown(start: nat, ghost all: multiset<T>, ghost track: bool)
      requires IsOrder(cmp) && start < size <= slots.Length && (track ==> notify)
      requires HeapButDown(cmp, slots[..size], start) && Keeps(slots[..size], all, track, pos, start)
      modifies slots, this`pos
      ensures Heap(cmp, slots[..size]) && Keeps(slots[..size], all, track, pos, -1)
    {
      hide HeapButDown, Heap, Keeps, Swap, IsOrder, FirstChild;
      var tmp := slots[start];
      var index := start;
      assert Filled(size, index, tmp) == slots[..size];
      while index < size / 2
        invariant index < size
        invariant HeapButDown(cmp, Filled(size, index, tmp), index)
        invariant Keeps(Filled(size, index, tmp), all, track, pos, index)
        decreases size - index
      {
        var which := PickChild(index, tmp);
        ghost var v := Filled(size, index, tmp);
        if cmp(slots[which], tmp) > 0 {
          DownStops(cmp, v, index, which);
          Settle(index, tmp, size, all, track);
          return;
        }
        DownStep(cmp, v, index, which);
        SwapKeeps(v, all, track, pos, index, which);
        slots[index] := slots[which];
        Update(slots[index], index);
        SwapFills(v, index, which, Filled(size, which, tmp));
        KeepsUntracked(Filled(size, which, tmp), all, track, which);
        index := which;
      }
      DownAtLeaf(cmp, Filled(size, index, tmp), index);
      Settle(index, tmp, size, all, track);
    }

    /** Restore the saved node into the hole and report it. */
    method Settle(index: nat, tmp: T, ghost n: nat, ghost all: multiset<T>, ghost track: bool)
      requires index < n <= slots.Length && (track ==> notify)
      requires Heap(cmp, Filled(n, index, tmp)) && Keeps(Filled(n, index, tmp), all, track, pos, index)
      modifies slots, this`pos
      ensures Heap(cmp, slots[..n]) && Keeps(slots[..n], all, track, pos, -1)
    {
      hide Heap, Keeps;
      SettleKeeps(Filled(n, index, tmp), all, track, pos, index);
      slots[index] := tmp;
      assert slots[..n] == old(Filled(n, index, tmp));
      Update(tmp, index);
      KeepsUntracked(slots[..n], all, track, -1);
    }


    /** trickle_down when the removed element was the last: nothing moves, only the callback runs. */
    method TrickleNothing(index: nat, ghost all: multiset<T>, ghost track: bool)
      requires index == size < slots.Length && (track ==> notify && slots[size] !in slots[..size])
      requires Keeps(slots[..size], all, track, pos, -1)
      modifies this`pos
      ensures Keeps(slots[..size], all, track, pos, -1)
    {
      Update(slots[index], index);
    }

    method Expand()
      requires Room()
      modifies this`slots
      ensures Room() && fresh(slots) && slots.Length == 2 * old(slots.Length)
      ensures Elements() == old(Elements())
    {
      var newarray := new T[2 * slots.Length];
      forall i | 0 <= i < slots.Length {
        newarray[i] := slots[i];
      }
      slots := newarray;
    }

    /** Positions are tracked for elements that are in the queue once. */
    ghost predicate Tracked()
      reads this, slots
      requires Room()
    {
      notify && Distinct(Elements()) && Placed(Elements(), pos)
    }

    /** The new node goes past the last one, and is reported there first. */
    method Append(data: T)
      requires Room()
      modifies this`pos, slots
      ensures slots[..size + 1] == old(Elements()) + [data]
      ensures pos == if notify then old(pos)[data := size] else old(pos)
    {
      slots[size] := data;
      Update(data, size);
    }

    /** From there it goes up. */
    method Raise(data: T, ghost before: seq<T>, ghost all: multiset<T>, ghost track: bool)
      requires Room() && Heap(cmp, before) && before == Elements() && all == multiset(before + [data])
      requires track ==> notify && Distinct(before) && Placed(before, pos) && data !in before
      modifies this`pos, slots
      ensures Heap(cmp, slots[..size + 1]) && Keeps(slots[..size + 1], all, track, pos, -1)
    {
      hide Heap, HeapButUp, Keeps, Distinct, Placed, PlacedBut, IsOrder;
      AppendKeeps(cmp, before, data, track, pos);
      Append(data);
      KeepsUntracked(slots[..size + 1], all, track, size);
      TrickleUp(size, size + 1, all, track);
    }

    method Enqueue(data: T)
      requires Valid()
      modifies this`slots, this`size, this`pos, slots
      ensures Valid() && (slots == old(slots) || fresh(slots))
      ensures multiset(Elements()) == multiset(old(Elements()) + [data])
      ensures old(Tracked()) && data !in old(Elements()) ==> Tracked()
    {
      hide Heap, HeapButUp, Keeps, Distinct, Placed, PlacedBut, IsOrder;
      if size + 2 >= slots.Length { Expand(); }
      ghost var before := Elements();
      ghost var track := Tracked() && data !in before;
      ghost var all := multiset(before + [data]);
      Raise(data, before, all, track);
      size := size + 1;
      KeepsMeans(Elements(), all, track, pos);
    }

    /** The last node moves into the place of the one at index. */
    method TakeLast(index: nat)
      requires Room() && index < size
      modifies this`size, slots
      ensures Room() && size == old(size) - 1
      ensures slots[..size] == Refill(old(Elements()), index)
      ensures slots[size] == old(slots[size - 1])
      ensures index < size ==> slots[index] == slots[size]
    {
      size := size - 1;
      slots[index] := slots[size];
    }

    /** The last element goes down from the root; nothing is left to go down where it was the root itself. */
    method SettleFirst(ghost before: seq<T>, ghost all: multiset<T>, ghost track: bool)
      requires IsOrder(cmp) && Heap(cmp, before) && size < slots.Length && |before| == size + 1
      requires slots[..size] == Refill(before, 0) && slots[0] == before[size] && (track ==> notify)
      requires all == multiset(before) - multiset{before[0]} && (track ==> Distinct(before) && Placed(before, pos))
      modifies slots, this`pos
      ensures Heap(cmp, slots[..size]) && Keeps(slots[..size], all, track, pos, -1)
    {
      hide Heap, HeapButDown, Keeps, Distinct, Placed, PlacedBut, IsOrder, Refill;
      RefillKeeps(before, 0, track, pos);
      if size == 0 {
        LastOut(cmp, before, all, track, pos);
        TrickleNothing(0, all, track);
      } else {
        RefillDown(cmp, before, 0);
        TrickleDown(0, all, track);
      }
    }

    method Dequeue() returns (data: T)
      requires Valid() && size > 0
      modifies this`size, this`pos, slots
      ensures Valid()
      ensures data == old(Elements())[0] && forall x :: x in old(Elements()) ==> cmp(data, x) <= 0
      ensures multiset(Elements()) == old(multiset(Elements())) - multiset{data}
      ensures old(Tracked()) ==> Tracked()
    {
      hide Heap, HeapButDown, Keeps, Distinct, Placed, PlacedBut, IsOrder, Refill;
      data := slots[0];
      ghost var before := Elements();
      ghost var track := Tracked();
      ghost var all := multiset(before) - multiset{data};
      RootIsMinimum(cmp, before);
      TakeLast(0);
      SettleFirst(before, all, track);
      KeepsMeans(Elements(), all, track, pos);
    }

    /** The last element, moved into the hole, goes up or down from there. Where the last slot itself is the hole,
        the heap order keeps it from going up, and below it there is nothing. */
    method SettleLast(index: nat, ghost before: seq<T>, ghost all: multiset<T>, ghost track: bool)
      requires IsOrder(cmp) && Heap(cmp, before) && index <= size < slots.Length && |before| == size + 1
      requires slots[..size] == Refill(before, index) && slots[index] == before[size] && (track ==> notify)
      requires all == multiset(before) - multiset{before[index]}
      requires track ==> Distinct(before) && Placed(before, pos)
      modifies slots, this`pos
      ensures Heap(cmp, slots[..size]) && Keeps(slots[..size], all, track, pos, -1)
    {
      hide Heap, HeapButUp, HeapButDown, Keeps, Distinct, Placed, PlacedBut, IsOrder, Refill;
      TakenOut(cmp, before, index, all, track, pos);
      WayToGo(cmp, before, index, slots[..size]);
      if index > 0 && cmp(slots[index], slots[Parent(index)]) < 0 {
        TrickleUp(index, size, all, track);
      } else if index < size {
        TrickleDown(index, all, track);
      } else {
        TrickleNothing(index, all, track);
      }
    }

    method RemoveAt(index: nat)
      requires Valid() && index < size
      modifies this`size, this`pos, slots
      ensures Valid()
      ensures multiset(Elements()) == old(multiset(Elements())) - multiset{old(slots[index])}
      ensures old(Tracked()) ==> Tracked()
    {
      hide Heap, HeapButUp, HeapButDown, Keeps, Distinct, Placed, PlacedBut, IsOrder, Refill;
      ghost var before := Elements();
      ghost var track := Tracked();
      ghost var all := multiset(before) - multiset{before[index]};
      TakeLast(index);
      SettleLast(index, before, all, track);
      KeepsMeans(Elements(), all, track, pos);
    }
  }

  lemma TakenOut<T(!new)>(cmp: (T, T) -> int, before: seq<T>, index: nat, all: multiset<T>, track: bool,
                          pos: map<T, int>)
    requires index < |before| && Heap(cmp, before) && all == multiset(before) - multiset{before[index]}
    requires track ==> Distinct(before) && Placed(before, pos)
    ensures var r := Refill(before, index);
            if index < |r| then Keeps(r, all, track, pos, index)
            else Heap(cmp, r) && Keeps(r, all, track, pos, -1) && (track ==> before[|r|] !in r)
  {
    hide Heap, Keeps, Distinct, Placed, PlacedBut, Refill;
    RefillKeeps(before, index, track, pos);
    if index == |before| - 1 {
      LastOut(cmp, before, all, track, pos);
    }
  }

  /** The heap order of r allows the last element to go up, or else down, from the place it is put in; it does
      not go up when it is its own replacement. */
  lemma WayToGo<T(!new)>(cmp: (T, T) -> int, before: seq<T>, index: nat, r: seq<T>)
    requires IsOrder(cmp) && Heap(cmp, before) && index < |before| && r == Refill(before, index)
    ensures if index > 0 && cmp(before[|r|], r[Parent(index)]) < 0 then index < |r| && HeapButUp(cmp, r, index)
            else index < |r| ==> HeapButDown(cmp, r, index)
  {
    hide Heap, HeapButUp, HeapButDown, IsOrder, Refill;
    if index > 0 {
      RefillElsewhere(before, index, Parent(index));
    }
    if index > 0 && cmp(before[|r|], r[Parent(index)]) < 0 {
      LastIsNotFirst(cmp, before, index);
      RefillUp(cmp, before, index);
    } else if index < |r| {
      RefillDown(cmp, before, index);
    }
  }

  lemma LastIsNotFirst<T(!new)>(cmp: (T, T) -> int, s: seq<T>, hole: nat)
    requires IsOrder(cmp) && Heap(cmp, s) && 0 < hole < |s| && cmp(s[|s| - 1], s[Parent(hole)]) < 0
    ensures hole < |s| - 1
  {
  }

  lemma RefillElsewhere<T>(s: seq<T>, hole: nat, j: nat)
    requires hole < |s| && j < |s|
    ensures j != hole && j < |s| - 1 ==> Refill(s, hole)[j] == s[j]
  {
  }

  lemma KeepsMeans<T>(s: seq<T>, all: multiset<T>, track: bool, pos: map<T, int>)
    requires Keeps(s, all, track, pos, -1)
    ensures multiset(s) == all && (track ==> Distinct(s) && Placed(s, pos))
  {
  }

  lemma AppendKeeps<T(!new)>(cmp: (T, T) -> int, s: seq<T>, x: T, track: bool, pos: map<T, int>)
    requires Heap(cmp, s) && (track ==> Distinct(s) && Placed(s, pos) && x !in s)
    ensures HeapButUp(cmp, s + [x], |s|)
    ensures Keeps(s + [x], multiset(s + [x]), track, pos, |s|)
    ensures Keeps(s + [x], multiset(s + [x]), track, pos[x := |s|], |s|)
  {
  }

  lemma RefillKeeps<T>(s: seq<T>, hole: nat, track: bool, pos: map<T, int>)
    requires hole < |s| && (track ==> Distinct(s) && Placed(s, pos))
    ensures Keeps(Refill(s, hole), multiset(s) - multiset{s[hole]}, track, pos, hole)
  {
    RefillMultiset(s, hole);
    if track { RefillPlaces(s, pos, hole); }
  }

  lemma RootIsMinimum<T(!new)>(cmp: (T, T) -> int, s: seq<T>)
    requires IsOrder(cmp) && Heap(cmp, s) && s != []
    ensures forall x :: x in s ==> cmp(s[0], x) <= 0
  {
    forall x | x in s ensures cmp(s[0], x) <= 0 {
      var i: nat :| i < |s| && s[i] == x;
      RootIsFirst(cmp, s, i);
    }
  }

  lemma LastOut<T(!new)>(cmp: (T, T) -> int, s: seq<T>, all: multiset<T>, track: bool, pos: map<T, int>)
    requires s != [] && Heap(cmp, s) && all == multiset(s) - multiset{s[|s| - 1]}
    requires track ==> Distinct(s) && Placed(s, pos)
    ensures var r := Refill(s, |s| - 1); Heap(cmp, r) && Keeps(r, all, track, pos, -1) && (track ==> s[|s| - 1] !in r)
  {
    hide Heap, Distinct, Placed, Refill;
    LastOutPlaces(s, track, pos);
    RefillMultiset(s, |s| - 1);
    LastOutOrder(cmp, s);
  }

  lemma LastOutOrder<T(!new)>(cmp: (T, T) -> int, s: seq<T>)
    requires s != [] && Heap(cmp, s)
    ensures Heap(cmp, Refill(s, |s| - 1))
  {
  }

  lemma LastOutPlaces<T>(s: seq<T>, track: bool, pos: map<T, int>)
    requires s != [] && (track ==> Distinct(s) && Placed(s, pos))
    ensures var r := Refill(s, |s| - 1); track ==> Distinct(r) && Placed(r, pos) && s[|s| - 1] !in r
  {
  }

  lemma ChildIsFirst<T(!new)>(cmp: (T, T) -> int, s: seq<T>, hole: nat, which: nat)
    requires IsOrder(cmp) && 2 * hole + 1 < |s|
    requires which == if 2 * hole + 2 < |s| && cmp(s[2 * hole + 1], s[2 * hole + 2]) > 0 then 2 * hole + 2
             else 2 * hole + 1
    ensures FirstChild(cmp, s, hole, which)
  {
    forall i | 0 < i < |s| && Parent(i) == hole ensures cmp(s[which], s[i]) <= 0 {
      assert i == 2 * hole + 1 || i == 2 * hole + 2;
      assert cmp(s[i], s[i]) < 0 <==> cmp(s[i], s[i]) > 0;
    }
  }

  lemma SwapFills<T>(v: seq<T>, hole: nat, j: nat, r: seq<T>)
    requires hole < |v| && j < |v| && hole != j && |r| == |v|
    requires r == v[hole := v[j]][j := v[hole]]
    ensures r == Swap(v, hole, j)
  {
  }

  lemma KeepsUntracked<T>(s: seq<T>, all: multiset<T>, track: bool, hole: int)
    ensures !track ==> forall p, p' :: Keeps(s, all, track, p, hole) == Keeps(s, all, track, p', hole)
  {
  }

  // ---- Heap sort ----

  ghost predicate Sorted<T(!new)>(cmp: (T, T) -> int, s: seq<T>) {
    forall i, j :: 0 <= i < j < |s| ==> cmp(s[i], s[j]) <= 0
  }

  lemma SortedGrows<T(!new)>(cmp: (T, T) -> int, s: seq<T>, x: T)
    requires Sorted(cmp, s) && forall i :: 0 <= i < |s| ==> cmp(s[i], x) <= 0
    ensures Sorted(cmp, s + [x])
  {
  }

  /** Enqueuing any list and draining the queue yields a sorted permutation of the list. */
  method HeapSort<T(0, ==, !new)>(xs: seq<T>, cmp: (T, T) -> int) returns (ys: seq<T>)
    requires IsOrder(cmp)
    ensures Sorted(cmp, ys) && multiset(ys) == multiset(xs)
  {
    hide Heap, Sorted;
    var q := new PQueue(cmp, false);
    for k := 0 to |xs|
      invariant q.Valid() && q.cmp == cmp && fresh(q) && fresh(q.slots)
      invariant multiset(q.Elements()) == multiset(xs[..k])
    {
      q.Enqueue(xs[k]);
      assert xs[..k + 1] == xs[..k] + [xs[k]];
    }
    assert xs[..|xs|] == xs;
    ys := Drain(q);
  }

  /** Part of the way through draining: ys is sorted, precedes the rest, and nothing is lost. */
  ghost predicate Draining<T(!new)>(cmp: (T, T) -> int, ys: seq<T>, rest: seq<T>, total: multiset<T>) {
    && Sorted(cmp, ys)
    && multiset(ys) + multiset(rest) == total
    && (forall i, x :: 0 <= i < |ys| && x in rest ==> cmp(ys[i], x) <= 0)
  }

  lemma DrainStarts<T(!new)>(cmp: (T, T) -> int, rest: seq<T>)
    ensures Draining(cmp, [], rest, multiset(rest))
  {
  }

  lemma DrainStep<T(!new)>(cmp: (T, T) -> int, ys: seq<T>, rest: seq<T>, total: multiset<T>, x: T, rest': seq<T>)
    requires Draining(cmp, ys, rest, total) && x in rest && forall y :: y in rest ==> cmp(x, y) <= 0
    requires multiset(rest') == multiset(rest) - multiset{x}
    ensures Draining(cmp, ys + [x], rest', total)
  {
    SubBag(rest, x, rest');
    SortedGrows(cmp, ys, x);
    assert x in multiset(rest);
  }

  lemma DrainEnds<T(!new)>(cmp: (T, T) -> int, ys: seq<T>, total: multiset<T>)
    requires Draining(cmp, ys, [], total)
    ensures Sorted(cmp, ys) && multiset(ys) == total
  {
  }

  method Drain<T(0, ==, !new)>(q: PQueue<T>) returns (ys: seq<T>)
    requires q.Valid()
    modifies q`size, q`pos, q.slots
    ensures Sorted(q.cmp, ys) && multiset(ys) == multiset(old(q.Elements()))
  {
    hide Heap, Sorted, IsOrder, Draining;
    ys := [];
    DrainStarts(q.cmp, q.Elements());
    while q.size > 0
      invariant q.Valid() && Draining(q.cmp, ys, q.Elements(), multiset(old(q.Elements())))
      decreases q.size
    {
      ghost var before, n := q.Elements(), q.size;
      var x := q.Dequeue();
      assert x in before;
      DrainStep(q.cmp, ys, before, multiset(old(q.Elements())), x, q.Elements());
      SubBag(before, x, q.Elements());
      ys := ys + [x];
    }
    assert q.Elements() == [];
    DrainEnds(q.cmp, ys, multiset(old(q.Elements())));
  }

  lemma SubBag<T>(s: seq<T>, x: T, r: seq<T>)
    requires x in s && multiset(r) == multiset(s) - multiset{x}
    ensures |r| == |s| - 1 && forall y :: y in r ==> y in s
  {
    assert |multiset(s)| == |s| && |multiset(r)| == |r| && x in multiset(s);
    forall y | y in r ensures y in s {
      assert y in multiset(r) && y in multiset(s);
    }
  }
}
