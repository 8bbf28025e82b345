/** hash.c: a table of chained backets whose index doubles when a chain grows long. */
module HashTable {
  import opened Bits
  import opened Wrappers
  import opened HashSpec
  import opened Sequences

  const HASH_INITIAL_SIZE: nat := 256
  const HASH_THRESHOLD: nat := 10

  class Backet<!T> {
    var next: Backet?<T>
    const key: nat
    const data: T

    constructor (key: nat, data: T, next: Backet?<T>)
      ensures this.key == key && this.data == data && this.next == next
    {
      this.key, this.data, this.next := key, data, next;
    }
  }

  /** The backets of a chain, from its first one to the null link. */
  ghost predicate IsChain<T>(first: Backet?<T>, c: seq<Backet<T>>)
    reads c`next
  {
    && first == (if c == [] then null else c[0])
    && (forall i, j :: 0 <= i < j < |c| ==> c[i] != c[j])
    && forall i {:trigger c[i].next} :: 0 <= i < |c| ==> c[i].next == if i + 1 < |c| then c[i + 1] else null
  }

  /** An index whose slots start these chains, all made of these nodes. */
  ghost predicate Heads<T>(idx: seq<Backet?<T>>, chains: seq<seq<Backet<T>>>, nodes: set<Backet<T>>)
    reads nodes`next
  {
    && |idx| == |chains|
    && forall i :: 0 <= i < |chains| ==> (forall x :: x in chains[i] ==> x in nodes) && IsChain(idx[i], chains[i])
  }

  /** Each backet is in the chain its key selects. */
  ghost predicate KeyPlaced<T>(chains: seq<seq<Backet<T>>>) {
    forall i, x :: 0 <= i < |chains| && x in chains[i] ==> Slot(x.key, |chains|) == i
  }

  lemma ChainPush<T>(first: Backet?<T>, c: seq<Backet<T>>, x: Backet<T>)
    requires IsChain(first, c) && x !in c && x.next == first
    ensures IsChain(x, [x] + c)
  {
    var d := [x] + c;
    forall i {:trigger d[i].next} | 0 <= i < |d| ensures d[i].next == if i + 1 < |d| then d[i + 1] else null {
      assert i > 0 ==> d[i] == c[i - 1];
    }
  }

  lemma ChainPop<T>(first: Backet?<T>, c: seq<Backet<T>>)
    requires IsChain(first, c) && c != []
    ensures IsChain(c[0].next, c[1..]) && c[0] !in c[1..]
  {
    var d := c[1..];
    forall i {:trigger d[i].next} | 0 <= i < |d| ensures d[i].next == if i + 1 < |d| then d[i + 1] else null {
      assert d[i] == c[i + 1];
    }
  }

  lemma HeadsPush<T>(idx: seq<Backet?<T>>, chains: seq<seq<Backet<T>>>, nodes: set<Backet<T>>, h: nat, x: Backet<T>)
    requires Heads(idx, chains, nodes) && h < |chains| && x !in nodes && x.next == idx[h]
    ensures Heads(idx[h := x], chains[h := [x] + chains[h]], nodes + {x})
  {
    hide IsChain;
    ChainPush(idx[h], chains[h], x);
  }

  lemma HeadsPop<T>(idx: seq<Backet?<T>>, chains: seq<seq<Backet<T>>>, nodes: set<Backet<T>>, i: nat)
    requires Heads(idx, chains, nodes) && KeyPlaced(chains) && i < |chains| && chains[i] != []
    ensures var x := chains[i][0];
            Heads(idx[i := x.next], chains[i := chains[i][1..]], nodes - {x})
    ensures chains[i][0] == idx[i]
  {
    var x := chains[i][0];
    ChainPop(idx[i], chains[i]);
    assert x in chains[i];
    assert Slot(x.key, |chains|) == i;
    assert forall j :: 0 <= j < |chains| && x in chains[j] ==> j == i;
  }

  function Values<T>(c: seq<Backet<T>>): (r: seq<T>)
    ensures |r| == |c| && forall i :: 0 <= i < |c| ==> r[i] == c[i].data
  {
    seq(|c|, i requires 0 <= i < |c| => c[i].data)
  }

  function View<T>(chains: seq<seq<Backet<T>>>): (v: seq<seq<T>>)
    ensures |v| == |chains| && forall i :: 0 <= i < |v| ==> v[i] == Values(chains[i])
  {
    seq(|chains|, i requires 0 <= i < |chains| => Values(chains[i]))
  }

  /** The values of all chains. */
  ghost function Held<T>(chains: seq<seq<Backet<T>>>): multiset<T> {
    Bag(View(chains))
  }

  lemma HeldUpdate<T>(chains: seq<seq<Backet<T>>>, i: nat, c: seq<Backet<T>>)
    requires i < |chains|
    ensures Held(chains[i := c]) + multiset(Values(chains[i])) == Held(chains) + multiset(Values(c))
  {
    BagUpdate(View(chains), i, Values(c));
    assert View(chains[i := c]) == View(chains)[i := Values(c)];
  }

  lemma ValuesCons<T>(x: Backet<T>, c: seq<Backet<T>>)
    ensures multiset(Values([x] + c)) == multiset(Values(c)) + multiset{x.data}
  {
    assert Values([x] + c) == [x.data] + Values(c);
  }

  lemma HeldPush<T>(chains: seq<seq<Backet<T>>>, h: nat, x: Backet<T>)
    requires h < |chains|
    ensures Held(chains[h := [x] + chains[h]]) == Held(chains) + multiset{x.data}
  {
    hide Held, Values;
    HeldUpdate(chains, h, [x] + chains[h]);
    ValuesCons(x, chains[h]);
    var a, b := Held(chains[h := [x] + chains[h]]), multiset(Values(chains[h]));
    assert a + b == (Held(chains) + multiset{x.data}) + b;
    Cancel(a, Held(chains) + multiset{x.data}, b);
  }

  lemma Cancel<T>(a: multiset<T>, b: multiset<T>, c: multiset<T>)
    requires a + c == b + c
    ensures a == b
  {
    assert a == (a + c) - c && b == (b + c) - c;
  }

  lemma ValuesDropped<T>(c: seq<Backet<T>>, k: nat)
    requires k < |c|
    ensures multiset(Values(c)) == multiset(Values(Dropped(c, k))) + multiset{c[k].data}
  {
    var v := Values(c);
    assert v == v[..k] + [v[k]] + v[k + 1..];
    assert Values(Dropped(c, k)) == v[..k] + v[k + 1..];
  }

  lemma HeldDrop<T>(chains: seq<seq<Backet<T>>>, i: nat, k: nat)
    requires i < |chains| && k < |chains[i]|
    ensures Held(chains) == Held(chains[i := Dropped(chains[i], k)]) + multiset{chains[i][k].data}
  {
    hide Held, Values, Dropped;
    var d := Dropped(chains[i], k);
    HeldUpdate(chains, i, d);
    ValuesDropped(chains[i], k);
    var a, one, b := Held(chains[i := d]), multiset{chains[i][k].data}, multiset(Values(d));
    assert (a + one) + b == Held(chains) + b;
    Cancel(a + one, Held(chains), b);
  }

  /** The body of the rehashing loop: the first backet left in bucket i goes to the front of its new bucket. */
  method MoveFirst<T>(hb: Backet<T>, newIndex: array<Backet?<T>>,
                      ghost idx: seq<Backet?<T>>, ghost rest: seq<seq<Backet<T>>>, ghost left: set<Backet<T>>,
                      ghost i: nat,
                      ghost made: seq<seq<Backet<T>>>, ghost moved: set<Backet<T>>)
    returns (hbnext: Backet?<T>, ghost h: nat)
    requires Heads(idx, rest, left) && KeyPlaced(rest) && i < |rest| && rest[i] != [] && hb == rest[i][0]
    requires Heads(newIndex[..], made, moved) && KeyPlaced(made) && IsPow2(newIndex.Length) && left !! moved
    modifies newIndex, hb`next
    ensures Heads(idx[i := hbnext], rest[i := rest[i][1..]], left - {hb}) && KeyPlaced(rest[i := rest[i][1..]])
    ensures h < |made| && Heads(newIndex[..], made[h := [hb] + made[h]], moved + {hb})
    ensures KeyPlaced(made[h := [hb] + made[h]])
    ensures Held(rest) == Held(rest[i := rest[i][1..]]) + multiset{hb.data}
    ensures Held(made[h := [hb] + made[h]]) == Held(made) + multiset{hb.data}
    ensures hb in left
  {
    hide Held, IsChain, IsPow2, Slot;
    HeadsPop(idx, rest, left, i);
    assert hb in rest[i];
    RestPlaced(rest, i);
    SlotInRange(hb.key, newIndex.Length);
    var slot := Slot(hb.key, newIndex.Length);
    h := slot;
    hbnext := hb.next;
    hb.next := newIndex[slot];
    HeadsPush(newIndex[..], made, moved, h, hb);
    newIndex[slot] := hb;
    HeldPush(made, h, hb);
    assert newIndex[..] == old(newIndex[..])[h := hb];
  }

  lemma RestPlaced<T>(chains: seq<seq<Backet<T>>>, i: nat)
    requires KeyPlaced(chains) && i < |chains| && chains[i] != []
    ensures KeyPlaced(chains[i := chains[i][1..]])
    ensures Held(chains) == Held(chains[i := chains[i][1..]]) + multiset{chains[i][0].data}
  {
    HeldDrop(chains, i, 0);
    assert Dropped(chains[i], 0) == chains[i][1..];
    assert forall x :: x in chains[i][1..] ==> x in chains[i];
  }

  lemma HeadsAt<T>(idx: seq<Backet?<T>>, chains: seq<seq<Backet<T>>>, nodes: set<Backet<T>>, i: nat)
    requires Heads(idx, chains, nodes) && i < |chains|
    ensures |idx| == |chains| && idx[i] == if chains[i] == [] then null else chains[i][0]
    ensures forall x :: x in chains[i] ==> x in nodes
  {
  }

  lemma HeadsWiden<T>(idx: seq<Backet?<T>>, chains: seq<seq<Backet<T>>>, nodes: set<Backet<T>>, more: set<Backet<T>>)
    requires Heads(idx, chains, nodes) && nodes <= more
    ensures Heads(idx, chains, more)
  {
  }

  ghost function NoChains<T>(n: nat): (chains: seq<seq<Backet<T>>>)
    ensures |chains| == n
  {
    seq(n, _ => [])
  }

  lemma {:induction false} NothingHeld<T>(chains: seq<seq<Backet<T>>>)
    requires forall i :: 0 <= i < |chains| ==> chains[i] == []
    ensures Held(chains) == multiset{} && KeyPlaced(chains)
  {
    if chains != [] {
      NothingHeld(chains[..|chains| - 1]);
      assert View(chains[..|chains| - 1]) == View(chains)[..|chains| - 1];
    }
  }

  /** The rehashing loops of hash_expand: every backet moves to the bucket its key selects in the new index. */
  method Rehash<T>(index: array<Backet?<T>>, size: nat, ghost chains: seq<seq<Backet<T>>>, ghost nodes: set<Backet<T>>)
    returns (newIndex: array<Backet?<T>>, ghost made: seq<seq<Backet<T>>>)
    requires IsPow2(size) && IsPow2(2 * size) && index.Length == size
    requires Heads(index[..], chains, nodes) && KeyPlaced(chains)
    modifies nodes`next
    ensures fresh(newIndex) && newIndex.Length == 2 * size
    ensures Heads(newIndex[..], made, nodes) && KeyPlaced(made)
    ensures Held(made) == Held(chains)
  {
    hide Heads, KeyPlaced, Held, IsPow2;
    newIndex := new Backet?<T>[2 * size](_ => null);
    ghost var rest, idx, left, moved := chains, index[..], nodes, {};
    made := NoChains(2 * size);
    NewHeads(newIndex[..], made);
    HeadsLength(idx, rest, left);
    for i := 0 to size
      invariant |rest| == |idx| == size && left <= nodes && moved <= nodes && left !! moved
      invariant Heads(idx, rest, left) && KeyPlaced(rest)
      invariant |made| == 2 * size && Heads(newIndex[..], made, moved) && KeyPlaced(made)
      invariant forall j :: 0 <= j < i ==> rest[j] == []
      invariant forall j :: i <= j < size ==> idx[j] == index[j]
      invariant Held(made) + Held(rest) == Held(chains)
    {
      var hb := index[i];
      while hb != null
        invariant |rest| == |idx| == size && left <= nodes && moved <= nodes && left !! moved
        invariant Heads(idx, rest, left) && KeyPlaced(rest)
        invariant |made| == 2 * size && Heads(newIndex[..], made, moved) && KeyPlaced(made)
        invariant forall j :: 0 <= j < i ==> rest[j] == []
        invariant forall j :: i < j < size ==> idx[j] == index[j]
        invariant idx[i] == hb
        invariant Held(made) + Held(rest) == Held(chains)
        decreases |rest[i]|
      {
        HeadsAt(idx, rest, left, i);
        ghost var x := hb;
        ghost var h;
        hb, h := MoveFirst(hb, newIndex, idx, rest, left, i, made, moved);
        made := made[h := [x] + made[h]];
        rest, idx := rest[i := rest[i][1..]], idx[i := hb];
        left, moved := left - {x}, moved + {x};
      }
      HeadsAt(idx, rest, left, i);
    }
    NothingHeld(rest);
    HeadsWiden(newIndex[..], made, moved, nodes);
  }

  lemma HeadsLength<T>(idx: seq<Backet?<T>>, chains: seq<seq<Backet<T>>>, nodes: set<Backet<T>>)
    requires Heads(idx, chains, nodes)
    ensures |idx| == |chains|
  {
  }

  lemma NewHeads<T>(idx: seq<Backet?<T>>, chains: seq<seq<Backet<T>>>)
    requires |idx| == |chains| && forall i :: 0 <= i < |chains| ==> idx[i] == null && chains[i] == []
    ensures Heads(idx, chains, {}) && KeyPlaced(chains) && Held(chains) == multiset{}
  {
    NothingHeld(chains);
  }

  /** The backets beyond the first half threshold of each chain. */
  ghost function Losers<T>(chains: seq<seq<Backet<T>>>): nat {
    if chains == [] then 0
    else Losers(chains[..|chains| - 1]) + Beyond(|chains[|chains| - 1]|)
  }

  function Beyond(len: nat): nat {
    if len > HASH_THRESHOLD / 2 then len - HASH_THRESHOLD / 2 else 0
  }

  ghost predicate LongChain<T>(chains: seq<seq<Backet<T>>>) {
    exists i :: 0 <= i < |chains| && |chains[i]| >= HASH_THRESHOLD
  }

  /** The second half of hash_expand: how well the backets spread. */
  method CountLosers<T>(index: array<Backet?<T>>, ghost chains: seq<seq<Backet<T>>>, ghost nodes: set<Backet<T>>)
    returns (losers: nat, long: bool)
    requires Heads(index[..], chains, nodes)
    ensures losers == Losers(chains) && (long <==> LongChain(chains))
  {
    hide LongChain;
    losers, long := 0, false;
    HeadsLength(index[..], chains, nodes);
    assert chains[..0] == [];
    NoLongChain(chains[..0]);
    for i := 0 to index.Length
      invariant losers == Losers(chains[..i]) && (long <==> LongChain(chains[..i]))
    {
      HeadsAt(index[..], chains, nodes, i);
      var len: nat := 0;
      var hb := index[i];
      ghost var c := chains[i];
      ghost var l0, g0 := losers, long;
      assert IsChain(index[..][i], c);
      while hb != null
        invariant len <= |c| && hb == if len < |c| then c[len] else null
        invariant losers == l0 + Beyond(len) && (long <==> g0 || len >= HASH_THRESHOLD)
        decreases |c| - len
      {
        len := len + 1;
        if len > HASH_THRESHOLD / 2 {
          losers := losers + 1;
        }
        if len >= HASH_THRESHOLD {
          long := true;
        }
        hb := hb.next;
      }
      assert chains[..i + 1][..i] == chains[..i];
      LongChainStep(chains, i);
    }
    assert chains[..|chains|] == chains;
  }

  lemma NoLongChain<T>(chains: seq<seq<Backet<T>>>)
    requires chains == []
    ensures !LongChain(chains)
  {
  }

  lemma LongChainStep<T>(chains: seq<seq<Backet<T>>>, i: nat)
    requires i < |chains|
    ensures LongChain(chains[..i + 1]) <==> LongChain(chains[..i]) || |chains[i]| >= HASH_THRESHOLD
  {
    var a, b := chains[..i], chains[..i + 1];
    if LongChain(a) {
      var j :| 0 <= j < |a| && |a[j]| >= HASH_THRESHOLD;
      assert b[j] == a[j];
    }
    assert b[i] == chains[i];
  }

  /** pp->next = backet->next: backet k leaves the middle of chain i. */
  method UnlinkNext<T>(pp: Backet<T>, backet: Backet<T>, ghost idx: seq<Backet?<T>>, ghost chains: seq<seq<Backet<T>>>,
                       ghost nodes: set<Backet<T>>, ghost i: nat, ghost k: nat)
    requires Heads(idx, chains, nodes) && KeyPlaced(chains) && i < |chains| && 0 < k < |chains[i]|
    requires pp == chains[i][k - 1] && backet == chains[i][k]
    modifies pp`next
    ensures Heads(idx, chains[i := Dropped(chains[i], k)], nodes - {backet})
  {
    ghost var c, d := chains[i], Dropped(chains[i], k);
    OnlyIn(chains, i, pp);
    OnlyIn(chains, i, backet);
    assert IsChain(idx[i], c);
    pp.next := backet.next;
    forall j {:trigger d[j].next} | 0 <= j < |d| ensures d[j].next == if j + 1 < |d| then d[j + 1] else null {
      var m := if j < k then j else j + 1;
      assert d[j] == c[m] && (m == k - 1 || c[m].next == old(c[m].next));
    }
    assert forall x :: x in d ==> x in c && x != backet;
  }

  lemma OnlyIn<T>(chains: seq<seq<Backet<T>>>, i: nat, x: Backet<T>)
    requires KeyPlaced(chains) && i < |chains| && x in chains[i]
    ensures forall j :: 0 <= j < |chains| && x in chains[j] ==> j == i
  {
    assert Slot(x.key, |chains|) == i;
  }

  lemma DropPlaced<T>(chains: seq<seq<Backet<T>>>, i: nat, k: nat)
    requires KeyPlaced(chains) && i < |chains| && k < |chains[i]|
    ensures KeyPlaced(chains[i := Dropped(chains[i], k)])
  {
    assert forall x :: x in Dropped(chains[i], k) ==> x in chains[i];
  }

  /** Every stored key is the key of the stored value. */
  ghost predicate KeysMatch<T>(f: Functions<T>, nodes: set<Backet<T>>) {
    forall x :: x in nodes ==> x.key == f.key(x.data)
  }

  lemma ViewPlaced<T>(f: Functions<T>, idx: seq<Backet?<T>>, chains: seq<seq<Backet<T>>>, nodes: set<Backet<T>>)
    requires Heads(idx, chains, nodes) && KeyPlaced(chains) && KeysMatch(f, nodes)
    ensures Placed(f, View(chains))
  {
    forall i, j | 0 <= i < |chains| && 0 <= j < |chains[i]|
      ensures Slot(f.key(View(chains)[i][j]), |chains|) == i
    {
      assert chains[i][j] in chains[i];
    }
  }

  class HashTable<!T(!new)> {
    const f: Functions<T>
    var index: array<Backet?<T>>
    var size: nat
    var noExpand: bool
    var count: nat
    ghost var chains: seq<seq<Backet<T>>>
    ghost var nodes: set<Backet<T>>

    ghost predicate Valid()
      reads this, index, nodes
    {
      && IsPow2(size) && index.Length == size < U32
      && Heads(index[..], chains, nodes) && KeyPlaced(chains) && KeysMatch(f, nodes)
      && Lawful(f) && Interned(f, Held(chains)) && count == |Held(chains)|
    }

    /** The stored value of x's class. */
    ghost function Known(x: T): Option<T>
      requires chains != []
      reads this
    {
      Lookup(f, View(chains), x)
    }

    lemma Buckets()
      requires Valid()
      ensures |chains| == size > 0 && Placed(f, View(chains)) && Bag(View(chains)) == Held(chains)
    {
      ViewPlaced(f, index[..], chains, nodes);
    }

    /** hash_create_size */
    constructor (f: Functions<T>, size: nat)
      requires IsPow2(size) && size < U32 && Lawful(f)
      ensures Valid() && this.f == f && this.size == size && !noExpand && fresh(index) && nodes == {}
      ensures Held(chains) == multiset{} && count == 0
    {
      this.f, this.size, noExpand, count := f, size, false, 0;
      index := new Backet?<T>[size](_ => null);
      chains, nodes := NoChains(size), {};
      new;
      NewHeads(index[..], chains);
    }

    /** hash_expand */
    method HashExpand()
      requires Valid() && size < 0x8000_0000
      modifies this, nodes`next
      ensures Valid() && fresh(index) && nodes == old(nodes)
      ensures size == 2 * old(size) && count == old(count) && Held(chains) == old(Held(chains))
      ensures noExpand <==> old(noExpand) || LongChain(chains) || Losers(chains) > count / 2
      ensures forall x :: old(Known(x)) == Known(x)
    {
      hide Heads, KeyPlaced, Held, Interned, Lawful, KeysMatch, LongChain, Lookup, Slot, Losers, Placed, View, Bag,
           IsPow2;
      Buckets();
      ghost var was := View(chains);
      DoubledPow2(size);
      var newIndex;
      ghost var made;
      newIndex, made := Rehash(index, size, chains, nodes);
      size := size * 2;
      index := newIndex;
      chains := made;
      var losers, long := CountLosers(index, chains, nodes);
      if long {
        noExpand := true;
      }
      if losers > count / 2 {
        noExpand := true;
      }
      Buckets();
      SameBagSameLookups(f, was, View(chains));
    }

    /** The chain that x belongs in. */
    ghost function ChainOf(x: T): seq<Backet<T>>
      requires size > 0
      reads this
    {
      var i := Slot(f.key(x), size);
      if i < |chains| then chains[i] else []
    }

    /** The search loop: the first backet of the chain that matches, and the one before it. */
    method Seek(first: Backet?<T>, key: nat, data: T, ghost c: seq<Backet<T>>)
      returns (backet: Backet?<T>, pp: Backet?<T>, len: nat)
      requires IsChain(first, c) && key == f.key(data) && forall x :: x in c ==> x.key == f.key(x.data)
      ensures len == Find(f, Values(c), data)
      ensures backet == if len < |c| then c[len] else null
      ensures pp == if len == 0 then first else c[len - 1]
    {
      len := 0;
      backet, pp := first, first;
      while backet != null
        invariant len <= |c| && backet == if len < |c| then c[len] else null
        invariant pp == if len == 0 then first else c[len - 1]
        invariant forall j :: 0 <= j < len ==> !Same(f, c[j].data, data)
        decreases |c| - len
      {
        if backet.key == key && f.cmp(backet.data, data) {
          break;
        }
        pp := backet;
        backet := backet.next;
        len := len + 1;
      }
      FirstMatch(f, Values(c), data, len);
    }

    /** Where x is looked for, and what is found there. */
    lemma KnownAt(x: T)
      requires Valid()
      ensures var i := Slot(f.key(x), size);
              && |chains| == size && i < size && IsChain(index[i], chains[i])
              && (forall y :: y in chains[i] ==> y in nodes && y.key == f.key(y.data))
              && var k := Find(f, Values(chains[i]), x);
                 Known(x) == if k < |chains[i]| then Some(chains[i][k].data) else None
    {
      SlotInRange(f.key(x), size);
    }

    /** The last lines of hash_get: a new backet at the front of its chain. */
    method Insert(key: nat, newdata: T)
      requires Valid() && key == f.key(newdata) && Slot(key, size) < size == |chains| && Known(newdata) == None
      modifies this`count, this`chains, this`nodes, index
      ensures Valid() && fresh(nodes - old(nodes)) && nodes >= old(nodes)
      ensures Held(chains) == old(Held(chains)) + multiset{newdata}
      ensures forall x :: Known(x) == if Same(f, newdata, x) then Some(newdata) else old(Known(x))
    {
      hide Heads, Held, Interned, Lawful, LongChain, Lookup, Slot, Losers, Placed, View, Bag, IsPow2, IsChain;
      Buckets();
      ghost var was := View(chains);
      var i := Slot(key, size);
      HeadsAt(index[..], chains, nodes, i);
      var backet := new Backet(key, newdata, index[i]);
      HeadsPush(index[..], chains, nodes, i, backet);
      HeldPush(chains, i, backet);
      ghost var idx := index[..];
      index[i] := backet;
      assert index[..] == idx[i := backet];
      count := count + 1;
      chains, nodes := chains[i := [backet] + chains[i]], nodes + {backet};
      ViewPlaced(f, index[..], chains, nodes);
      HeldIsBag(chains);
      InsertAddsOneClass(f, was, View(chains), newdata);
    }

    /** Doubling the index, should this call come to it, does not wrap the size. */
    ghost predicate MayExpand(data: T)
      requires size > 0
      reads this
    {
      |ChainOf(data)| > HASH_THRESHOLD && !noExpand ==> size < 0x8000_0000
    }

    /** hash_get. With alloc the class of data gets a value, and a long chain doubles the index first. */
    method HashGet(data: T, alloc: Option<T -> Option<T>>) returns (r: Option<T>)
      requires Valid() && (alloc.Some? ==> MayExpand(data))
      requires alloc.Some? && alloc.value(data).Some? ==> Same(f, alloc.value(data).value, data)
      modifies this, index, nodes`next
      ensures Valid() && fresh(nodes - old(nodes)) && nodes >= old(nodes) && (index == old(index) || fresh(index))
      ensures old(chains) != [] && old(size) > 0
      ensures var added := if old(Known(data)).None? && alloc.Some? then alloc.value(data) else None;
              && r == (if old(Known(data)).Some? then old(Known(data)) else added)
              && Held(chains) == old(Held(chains)) + (if added.Some? then multiset{added.value} else multiset{})
              && (forall x :: Known(x) == if added.Some? && Same(f, added.value, x) then added else old(Known(x)))
              && (size != old(size) <==>
                    && added.Some? && !old(noExpand)
                    && |old(ChainOf(data))| > HASH_THRESHOLD)
              && (added.None? ==> chains == old(chains))
    {
      hide Heads, KeyPlaced, KeysMatch, Held, Interned, Lawful, LongChain, Lookup, Slot, Losers, Placed, View, Bag,
           IsPow2, IsChain;
      Buckets();
      KnownAt(data);
      var key := f.key(data);
      var i := Slot(key, size);
      var backet, _, len := Seek(index[i], key, data, chains[i]);
      if backet != null {
        return Some(backet.data);
      }
      if alloc.Some? {
        var newdata := alloc.value(data);
        if newdata.None? {
          return None;
        }
        if len > HASH_THRESHOLD && !noExpand {
          HashExpand();
        }
        Buckets();
        SlotInRange(key, size);
        SameClass(newdata.value, data);
        Insert(key, newdata.value);
        return newdata;
      }
      return None;
    }

    /** hash_lookup */
    method HashLookup(data: T) returns (r: Option<T>)
      requires Valid()
      modifies this, index, nodes`next
      ensures Valid() && old(chains) != []
      ensures r == old(Known(data)) && chains == old(chains) && size == old(size)
    {
      r := HashGet(data, None);
    }

    lemma SameClass(x: T, y: T)
      requires Valid() && Same(f, x, y)
      ensures chains != [] && Known(x) == Known(y) && f.key(x) == f.key(y)
    {
      hide Lookup;
      Buckets();
      ViewPlaced(f, index[..], chains, nodes);
      var v := View(chains);
      if Known(x).Some? {
        var z := Known(x).value;
        LookupSame(f, v, x, z);
        LookupSame(f, v, y, z);
      }
      if Known(y).Some? {
        var z := Known(y).value;
        LookupSame(f, v, x, z);
        LookupSame(f, v, y, z);
      }
    }

    /** hash_release */
    method HashRelease(data: T) returns (ret: Option<T>)
      requires Valid()
      modifies this`count, this`chains, this`nodes, index, nodes`next
      ensures Valid() && old(chains) != [] && nodes <= old(nodes)
      ensures ret == old(Known(data))
      ensures ret.None? ==> chains == old(chains) && Held(chains) == old(Held(chains))
      ensures ret.Some? ==>
                && Held(chains) + multiset{ret.value} == old(Held(chains))
                && (forall x :: Known(x) == if Same(f, ret.value, x) then None else old(Known(x)))
      ensures ret.Some? ==>
                var i, k := Slot(f.key(data), old(size)), Find(f, Values(old(ChainOf(data))), data);
                i < |old(chains)| && k < |old(chains)[i]| && chains == old(chains)[i := Dropped(old(chains)[i], k)]
    {
      hide Heads, KeyPlaced, KeysMatch, Held, Interned, Lawful, LongChain, Lookup, Slot, Losers, Placed, View, Bag,
           IsPow2, Dropped, IsChain, Find;
      Buckets();
      KnownAt(data);
      ghost var was := View(chains);
      var key := f.key(data);
      var i := Slot(key, size);
      ghost var c := chains[i];
      var backet, pp, k := Seek(index[i], key, data, c);
      if backet == null {
        return None;
      }
      ghost var idx := index[..];
      HeldDrop(chains, i, k);
      DropPlaced(chains, i, k);
      NextDiffers(index[i], c, k);
      if backet == pp {
        FrontDropped(c);
        HeadsPop(idx, chains, nodes, i);
        index[i] := backet.next;
        assert index[..] == idx[i := backet.next];
      } else {
        UnlinkNext(pp, backet, idx, chains, nodes, i, k);
        assert index[..] == idx;
      }
      ret := Some(backet.data);
      count := count - 1;
      chains, nodes := chains[i := Dropped(c, k)], nodes - {backet};
      FewerKeys(f, old(nodes), nodes);
      ViewPlaced(f, index[..], chains, nodes);
      HeldIsBag(chains);
      RemoveDropsOneClass(f, was, View(chains), backet.data);
    }

    /** Any sequence of calls, with the doublings they cause, is a run of a finite map on classes; it is cut
        short only by a call that might double an index of 2^31 slots. */
    method Run(ops: seq<Op<T>>) returns (answers: seq<Option<T>>, ghost bags: seq<multiset<T>>)
      requires Valid() && forall i :: 0 <= i < |ops| ==> OpOk(f, ops[i])
      modifies this, index, nodes`next
      ensures Valid() && IsRun(f, ops, answers, bags)
      ensures bags[0] == old(Held(chains)) && bags[|answers|] == Held(chains)
      ensures |answers| < |ops| ==> !MayRun(ops[|answers|])
    {
      hide Valid, Held, Step, Stands, Lookup;
      answers, bags := [], [Held(chains)];
      while |answers| < |ops| && MayRun(ops[|answers|])
        invariant Valid() && IsRun(f, ops, answers, bags)
        invariant bags[0] == old(Held(chains)) && bags[|answers|] == Held(chains)
        invariant (index == old(index) || fresh(index)) && fresh(nodes - old(nodes))
        decreases |ops| - |answers|
      {
        var answer := Call(ops[|answers|]);
        answers, bags := answers + [answer], bags + [Held(chains)];
      }
    }

    predicate MayRun(op: Op<T>)
      reads this
    {
      size < 0x8000_0000 || noExpand || op.ReleaseOp? || op.alloc.None?
    }

    method Call(op: Op<T>) returns (answer: Option<T>)
      requires Valid() && MayRun(op) && OpOk(f, op)
      modifies this, index, nodes`next
      ensures Valid() && fresh(nodes - old(nodes)) && (index == old(index) || fresh(index))
      ensures Step(f, old(Held(chains)), op, answer, Held(chains))
    {
      hide Valid, Held, Lookup, Stands;
      Answered(op.data);
      Buckets();
      match op
      case GetOp(data, alloc) => answer := HashGet(data, alloc);
      case ReleaseOp(data) => answer := HashRelease(data);
    }

    lemma Answered(x: T)
      requires Valid()
      ensures chains != [] && Stands(f, Held(chains), x, Known(x))
    {
      hide Lookup, Stands;
      Buckets();
      LookupStands(f, View(chains), x);
    }

    lemma ItsPlace(i: nat, k: nat)
      requires Valid() && i < size
      ensures size == |chains| == index.Length && IsChain(index[i], chains[i])
      ensures k < |chains[i]| ==>
                && Slot(f.key(chains[i][k].data), size) == i
                && ChainOf(chains[i][k].data) == chains[i]
                && Find(f, Values(chains[i]), chains[i][k].data) == k
    {
      if k < |chains[i]| {
        assert chains[i][k] in chains[i];
        FindsItself(f, View(chains), i, k);
      }
    }

    /** hash_clean: every value is freed once and the table is left empty. */
    method HashClean() returns (freed: seq<T>)
      requires Valid()
      modifies this`count, this`chains, this`nodes, index
      ensures Valid() && Held(chains) == multiset{} && count == 0
      ensures multiset(freed) == old(Held(chains))
    {
      hide Heads, KeyPlaced, Held, Interned, LongChain, Lookup, Slot, Losers, Placed, View, Bag, IsPow2, Dropped,
           IsChain, Find, Cleaned, Values;
      freed := [];
      ghost var start := chains;
      Buckets();
      CleanStarts(start);
      for i := 0 to size
        invariant Heads(index[..], chains, nodes) && KeyPlaced(chains) && |chains| == size
        invariant nodes == old(nodes) && index.Length == size
        invariant Cleaned(start, chains, i, freed) && count == |Held(chains)|
      {
        HeadsClear(index[..], chains, nodes, i);
        CleanStep(start, chains, i, freed);
        var part := FreeChain(index[i], chains[i]);
        freed := freed + part;
        count := count - |part|;
        ghost var idx := index[..];
        index[i] := null;
        assert index[..] == idx[i := null];
        chains := chains[i := []];
      }
      CleanEnds(start, chains, freed);
      NothingInterned(f);
    }

    /** The body of that loop: the successor is read before the callback. */
    method VisitOne(hb: Backet<T>, ghost i: nat, ghost k: nat, doomed: T -> bool) returns (hbnext: Backet?<T>)
      requires Valid() && i < size && i < |chains| && k < |chains[i]| && hb == chains[i][k]
      modifies this`count, this`chains, this`nodes, index, nodes`next
      ensures Valid() && nodes <= old(nodes)
      ensures var c := old(chains)[i];
              && hbnext == (if k + 1 < |c| then c[k + 1] else null)
              && chains == if doomed(hb.data) then old(chains)[i := Dropped(c, k)] else old(chains)
      ensures Held(chains) + (if doomed(hb.data) then multiset{hb.data} else multiset{}) == old(Held(chains))
    {
      hide Valid, Heads, KeyPlaced, KeysMatch, Held, Interned, Lawful, Lookup, Slot, Placed, View, Bag, IsPow2,
           IsChain, Find;
      ItsPlace(i, k);
      KnownAt(hb.data);
      NextOf(index[i], chains[i], k);
      hbnext := hb.next;
      if doomed(hb.data) {
        var _ := HashRelease(hb.data);
      }
    }

    /** hash_iterate with a callback that releases the values it is done with: every value stored at the start
        is visited once, and those kept are the others. */
    method HashIterate(doomed: T -> bool) returns (visited: seq<T>, ghost released: multiset<T>)
      requires Valid()
      modifies this`count, this`chains, this`nodes, index, nodes`next
      ensures Valid() && multiset(visited) == old(Held(chains))
      ensures Held(chains) + released == old(Held(chains))
      ensures forall x :: x in released ==> doomed(x)
      ensures forall x :: x in Held(chains) ==> !doomed(x)
    {
      hide Valid, Heads, KeyPlaced, KeysMatch, Held, Interned, Lawful, LongChain, Lookup, Slot, Losers, Placed, View,
           Bag, IsPow2, Dropped, IsChain, Find, AllKept;
      visited, released := [], multiset{};
      ghost var start := chains;
      Buckets();
      BagStart(start);
      for i := 0 to size
        invariant Valid() && nodes <= old(nodes) && |chains| == |start| == size
        invariant Held(chains) + released == Held(start)
        invariant forall x :: x in released ==> doomed(x)
        invariant forall j :: i <= j < |start| ==> chains[j] == start[j]
        invariant forall j :: 0 <= j < i ==> AllKept(doomed, chains[j])
        invariant multiset(visited) == Held(start[..i])
      {
        ghost var kept: seq<Backet<T>>, gone;
        var part;
        part, kept, gone := IterateChain(i, doomed);
        visited := visited + part;
        released := released + gone;
        BagStep(start, i);
      }
      assert start[..|start|] == start;
      forall x | x in Held(chains) ensures !doomed(x) {
        HeldSomewhere(chains, x);
        KeptAre(doomed, chains, x);
      }
    }

    /** The inner loop of hash_iterate on bucket i. */
    method IterateChain(i: nat, doomed: T -> bool)
      returns (visited: seq<T>, ghost kept: seq<Backet<T>>, ghost released: multiset<T>)
      requires Valid() && i < size
      modifies this`count, this`chains, this`nodes, index, nodes`next
      ensures Valid() && nodes <= old(nodes) && |old(chains)| == size
      ensures visited == Values(old(chains)[i])
      ensures chains == old(chains)[i := kept] && AllKept(doomed, kept)
      ensures Held(chains) + released == old(Held(chains))
      ensures forall x :: x in released ==> doomed(x)
    {
      hide Valid, Heads, KeyPlaced, KeysMatch, Held, Interned, Lawful, LongChain, Lookup, Slot, Losers, Placed, View,
           Bag, IsPow2, IsChain, Find, Dropped, Values, Spliced, AllKept;
      ItsPlace(i, 0);
      ghost var c := chains[i];
      visited, kept, released := [], [], multiset{};
      ghost var a: nat := 0;
      var hb := index[i];
      FirstAt(hb, c);
      SplicedEnds([], c);
      NoneKept<T>(doomed);
      assert chains[i := c] == chains;
      while hb != null
        invariant Valid() && nodes <= old(nodes) && a <= |c| && i < |chains| == |old(chains)| == size
        invariant chains == old(chains)[i := Spliced(kept, c, a)]
        invariant hb == if a < |c| then c[a] else null
        invariant Held(chains) + released == old(Held(chains))
        invariant forall x :: x in released ==> doomed(x)
        invariant AllKept(doomed, kept) && visited == Values(c[..a])
        decreases |c| - a
      {
        ValuesSnoc(c, a);
        Middle(kept, c, a);
        visited := visited + [hb.data];
        ghost var x := hb;
        hb := VisitOne(hb, i, |kept|, doomed);
        if doomed(x.data) {
          released := released + multiset{x.data};
        } else {
          OneMoreKept(doomed, kept, x);
          kept := kept + [x];
        }
        a := a + 1;
      }
      SplicedEnds(kept, c);
    }
  }

  ghost predicate AllKept<T>(doomed: T -> bool, c: seq<Backet<T>>) {
    forall x :: x in c ==> !doomed(x.data)
  }

  lemma NoneKept<T>(doomed: T -> bool)
    ensures AllKept(doomed, [])
  {
  }

  lemma OneMoreKept<T>(doomed: T -> bool, c: seq<Backet<T>>, x: Backet<T>)
    requires AllKept(doomed, c) && !doomed(x.data)
    ensures AllKept(doomed, c + [x])
  {
  }

  lemma KeptAre<T>(doomed: T -> bool, chains: seq<seq<Backet<T>>>, x: T)
    requires forall j :: 0 <= j < |chains| ==> AllKept(doomed, chains[j])
    requires exists j, y :: 0 <= j < |chains| && y in chains[j] && y.data == x
    ensures !doomed(x)
  {
  }

  /** The backets kept so far and those of c from a on. */
  function Spliced<T>(kept: seq<T>, c: seq<T>, a: nat): seq<T>
    requires a <= |c|
  {
    kept + c[a..]
  }

  lemma SplicedEnds<T>(kept: seq<T>, c: seq<T>)
    ensures Spliced([], c, 0) == c && Spliced(kept, c, |c|) == kept && c[..|c|] == c && c[..0] == []
  {
  }

  lemma NothingInterned<T>(f: Functions<T>)
    ensures Interned(f, multiset{})
  {
  }

  /** Emptying a slot. */
  lemma HeadsClear<T>(idx: seq<Backet?<T>>, chains: seq<seq<Backet<T>>>, nodes: set<Backet<T>>, i: nat)
    requires Heads(idx, chains, nodes) && KeyPlaced(chains) && i < |chains|
    ensures Heads(idx[i := null], chains[i := []], nodes) && KeyPlaced(chains[i := []])
    ensures IsChain(idx[i], chains[i])
    ensures Held(chains[i := []]) + multiset(Values(chains[i])) == Held(chains)
  {
    HeldUpdate(chains, i, []);
  }

  /** The values of the first i chains are freed; the other chains are as they were. */
  ghost predicate Cleaned<T>(start: seq<seq<Backet<T>>>, chains: seq<seq<Backet<T>>>, i: nat, freed: seq<T>) {
    && i <= |start| && |chains| == |start|
    && (forall j :: 0 <= j < i ==> chains[j] == [])
    && (forall j :: i <= j < |start| ==> chains[j] == start[j])
    && Held(start[..i]) + Held(chains) == Held(start)
    && multiset(freed) == Held(start[..i])
  }

  lemma CleanStarts<T>(start: seq<seq<Backet<T>>>)
    ensures Cleaned(start, start, 0, [])
  {
    hide Held;
    BagStart(start);
  }

  lemma CleanStep<T>(start: seq<seq<Backet<T>>>, chains: seq<seq<Backet<T>>>, i: nat, freed: seq<T>)
    requires Cleaned(start, chains, i, freed) && i < |chains|
    ensures Cleaned(start, chains[i := []], i + 1, freed + Values(chains[i]))
    ensures |Held(chains[i := []])| == |Held(chains)| - |Values(chains[i])|
  {
    hide Held, Values;
    BagStep(start, i);
    HeldUpdate(chains, i, []);
    var none: seq<Backet<T>> := [];
    assert Values(none) == [];
    var v := Values(chains[i]);
    assert multiset(freed + v) == multiset(freed) + multiset(v);
    assert |multiset(v)| == |v|;
    var rest := Held(chains[i := []]);
    assert Held(chains) == rest + multiset(v);
    assert Held(start[..i]) + (rest + multiset(v)) == (Held(start[..i]) + multiset(v)) + rest;
  }

  lemma CleanEnds<T>(start: seq<seq<Backet<T>>>, chains: seq<seq<Backet<T>>>, freed: seq<T>)
    requires Cleaned(start, chains, |start|, freed)
    ensures Held(chains) == multiset{} && multiset(freed) == Held(start)
  {
    hide Held;
    assert start[..|start|] == start;
    NothingHeld(chains);
  }

  /** The inner loop of hash_clean: each backet's successor is read before the backet is freed. */
  method FreeChain<T>(first: Backet?<T>, ghost c: seq<Backet<T>>) returns (freed: seq<T>)
    requires IsChain(first, c)
    ensures freed == Values(c)
  {
    freed := [];
    var hb := first;
    ghost var a: nat := 0;
    while hb != null
      invariant a <= |c| && hb == (if a < |c| then c[a] else null) && freed == Values(c[..a])
      decreases |c| - a
    {
      var next := hb.next;
      freed := freed + [hb.data];
      ValuesSnoc(c, a);
      hb := next;
      a := a + 1;
    }
    assert c[..a] == c;
  }

  lemma HeldSomewhere<T>(chains: seq<seq<Backet<T>>>, x: T)
    requires x in Held(chains)
    ensures exists j, y :: 0 <= j < |chains| && y in chains[j] && y.data == x
  {
    BagHas(View(chains), x);
    var j :| 0 <= j < |chains| && x in View(chains)[j];
    var m :| 0 <= m < |chains[j]| && Values(chains[j])[m] == x;
    assert chains[j][m] in chains[j];
  }

  lemma BagStart<T>(chains: seq<seq<Backet<T>>>)
    ensures chains[..0] == [] && Held<T>([]) == multiset{}
  {
  }

  lemma BagStep<T>(chains: seq<seq<Backet<T>>>, i: nat)
    requires i < |chains|
    ensures Held(chains[..i + 1]) == Held(chains[..i]) + multiset(Values(chains[i]))
  {
    assert View(chains[..i + 1])[..i] == View(chains[..i]);
  }

  lemma FirstAt<T>(first: Backet?<T>, c: seq<Backet<T>>)
    requires IsChain(first, c)
    ensures first == if c == [] then null else c[0]
    ensures c[0..] == c && c[..0] == []
  {
  }

  /** A chain of kept backets and those from a on: its backet number |kept| is backet a. */
  lemma Middle<T>(kept: seq<T>, c: seq<T>, a: nat)
    requires a < |c|
    ensures var s := Spliced(kept, c, a);
            && |kept| < |s| && s[|kept|] == c[a]
            && Dropped(s, |kept|) == Spliced(kept, c, a + 1)
            && s == Spliced(kept + [c[a]], c, a + 1)
            && (|kept| + 1 < |s| <==> a + 1 < |c|)
            && (a + 1 < |c| ==> s[|kept| + 1] == c[a + 1])
  {
  }

  lemma NextOf<T>(first: Backet?<T>, c: seq<Backet<T>>, k: nat)
    requires IsChain(first, c) && k < |c|
    ensures c[k].next == if k + 1 < |c| then c[k + 1] else null
  {
  }

  lemma ValuesSnoc<T>(c: seq<Backet<T>>, a: nat)
    requires a < |c|
    ensures Values(c[..a + 1]) == Values(c[..a]) + [c[a].data]
  {
  }

  lemma NextDiffers<T>(first: Backet?<T>, c: seq<Backet<T>>, k: nat)
    requires IsChain(first, c) && k < |c|
    ensures k > 0 ==> c[k - 1] != c[k]
    ensures first == c[0]
  {
  }

  lemma FrontDropped<T>(c: seq<T>)
    requires c != []
    ensures Dropped(c, 0) == c[1..]
  {
  }

  lemma FewerKeys<T>(f: Functions<T>, nodes: set<Backet<T>>, fewer: set<Backet<T>>)
    requires KeysMatch(f, nodes) && fewer <= nodes
    ensures KeysMatch(f, fewer)
  {
  }

  lemma HeldIsBag<T>(chains: seq<seq<Backet<T>>>)
    ensures Held(chains) == Bag(View(chains)) && |View(chains)| == |chains|
  {
  }

  lemma FirstMatch<T>(f: Functions<T>, c: seq<T>, x: T, len: nat)
    requires len <= |c| && forall j :: 0 <= j < len ==> !Same(f, c[j], x)
    requires len < |c| ==> Same(f, c[len], x)
    ensures len == Find(f, c, x)
  {
  }

  /** hash_create */
  method HashCreate<T(!new)>(f: Functions<T>) returns (hash: HashTable<T>)
    requires Lawful(f)
    ensures hash.Valid() && fresh(hash) && hash.f == f
    ensures Held(hash.chains) == multiset{} && hash.count == 0
  {
    assert Pow2(8) == HASH_INITIAL_SIZE;
    hash := new HashTable(f, HASH_INITIAL_SIZE);
  }

  lemma DoubledPow2(n: nat)
    requires IsPow2(n)
    ensures IsPow2(2 * n)
  {
    var k: nat :| n == Pow2(k);
    assert Pow2(k + 1) == 2 * n;
  }
}
