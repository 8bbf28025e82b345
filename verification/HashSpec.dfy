/** What a chained hash table means: a bag of values in which no two are the same by key and comparison. */
module HashSpec {
  import opened Bits
  import opened Wrappers

  /** The two functions a table is created with. */
  datatype Functions<!T> = Functions(key: T -> nat, cmp: (T, T) -> bool)

  predicate Same<T>(f: Functions<T>, a: T, b: T) {
    f.key(a) == f.key(b) && f.cmp(a, b)
  }

  /** What the table relies on: cmp is an equivalence among values of one key, and keys fit 32 bits. */
  ghost predicate Lawful<T(!new)>(f: Functions<T>) {
    && (forall a :: f.key(a) < U32)
    && (forall a :: Same(f, a, a))
    && (forall a, b :: Same(f, a, b) ==> Same(f, b, a))
    && (forall a, b, c :: Same(f, a, b) && Same(f, b, c) ==> Same(f, a, c))
  }

  function Slot(key: nat, size: nat): (i: nat)
    requires size > 0
  {
    BitAnd(key, size - 1)
  }

  lemma SlotInRange(key: nat, size: nat)
    requires IsPow2(size)
    ensures size > 0 && Slot(key, size) == key % size < size
  {
    var k: nat :| size == Pow2(k);
    assert size > 0;
    MaskPow2(key, size);
  }

  /** Every value is in the bucket its key selects. */
  ghost predicate Placed<T>(f: Functions<T>, v: seq<seq<T>>) {
    forall i, j :: 0 <= i < |v| && 0 <= j < |v[i]| ==> Slot(f.key(v[i][j]), |v|) == i
  }

  ghost function Bag<T>(v: seq<seq<T>>): multiset<T> {
    if v == [] then multiset{} else Bag(v[..|v| - 1]) + multiset(v[|v| - 1])
  }

  ghost predicate Interned<T>(f: Functions<T>, b: multiset<T>) {
    && (forall x :: x in b ==> b[x] == 1)
    && (forall x, y :: x in b && y in b && Same(f, x, y) ==> x == y)
  }

  /** The place of the first value of the chain that is the same as x, or the length. */
  function Find<T>(f: Functions<T>, c: seq<T>, x: T): (k: nat)
    ensures k <= |c|
    ensures k < |c| ==> Same(f, c[k], x)
    ensures forall i :: 0 <= i < k ==> !Same(f, c[i], x)
  {
    if c == [] || Same(f, c[0], x) then 0 else 1 + Find(f, c[1..], x)
  }

  function Lookup<T>(f: Functions<T>, v: seq<seq<T>>, x: T): Option<T>
    requires v != []
  {
    var i := Slot(f.key(x), |v|);
    if i < |v| then
      var k := Find(f, v[i], x);
      if k < |v[i]| then Some(v[i][k]) else None
    else None
  }

  lemma {:induction false} BagHas<T>(v: seq<seq<T>>, x: T)
    ensures x in Bag(v) <==> exists i :: 0 <= i < |v| && x in v[i]
  {
    if v != [] {
      var w, last := v[..|v| - 1], v[|v| - 1];
      BagHas(w, x);
      assert x in multiset(last) <==> x in last;
      forall i | 0 <= i < |v| && x in v[i] ensures x in Bag(v) {
        assert i < |w| ==> x in w[i];
      }
      if x in Bag(w) {
        var i :| 0 <= i < |w| && x in w[i];
        assert x in v[i];
      }
    }
  }

  lemma Regroup<T>(a: multiset<T>, b: multiset<T>, c: multiset<T>, d: multiset<T>, l: multiset<T>)
    requires a + b == c + d
    ensures (a + l) + b == (c + l) + d
  {
    assert (a + l) + b == (a + b) + l;
  }

  lemma {:induction false} BagUpdate<T>(v: seq<seq<T>>, i: nat, c: seq<T>)
    requires i < |v|
    ensures Bag(v[i := c]) + multiset(v[i]) == Bag(v) + multiset(c)
  {
    var n: nat := |v| - 1;
    var w := v[i := c];
    if i < n {
      BagUpdate(v[..n], i, c);
      assert w[..n] == v[..n][i := c];
      Regroup(Bag(w[..n]), multiset(v[i]), Bag(v[..n]), multiset(c), multiset(v[n]));
    } else {
      assert w[..n] == v[..n];
    }
  }

  /** A lookup finds exactly the stored value that is the same as the one sought. */
  lemma LookupIff<T(!new)>(f: Functions<T>, v: seq<seq<T>>, x: T, y: T)
    requires Lawful(f) && v != [] && Placed(f, v) && Interned(f, Bag(v))
    ensures Lookup(f, v, x) == Some(y) <==> y in Bag(v) && f.key(y) == f.key(x) && f.cmp(y, x)
  {
    var s := Slot(f.key(x), |v|);
    BagHas(v, y);
    if y in Bag(v) && Same(f, y, x) {
      var i :| 0 <= i < |v| && y in v[i];
      var j :| 0 <= j < |v[i]| && v[i][j] == y;
      assert i == s;
      var k := Find(f, v[i], x);
      var z := v[i][k];
      BagHas(v, z);
      assert Same(f, z, x) && Same(f, x, y);
    }
  }

  lemma LookupSame<T(!new)>(f: Functions<T>, v: seq<seq<T>>, x: T, y: T)
    requires Lawful(f) && v != [] && Placed(f, v) && Interned(f, Bag(v))
    ensures Lookup(f, v, x) == Some(y) <==> y in Bag(v) && Same(f, y, x)
  {
    hide Lookup, Bag, Placed, Interned, Lawful;
    LookupIff(f, v, x, y);
  }

  /** Two tables with the same values answer alike, whatever their sizes. */
  lemma SameBagSameLookups<T(!new)>(f: Functions<T>, v: seq<seq<T>>, w: seq<seq<T>>)
    requires Lawful(f) && v != [] && w != [] && Placed(f, v) && Placed(f, w)
    requires Bag(v) == Bag(w) && Interned(f, Bag(v))
    ensures forall x :: Lookup(f, v, x) == Lookup(f, w, x)
  {
    forall x: T | true ensures Lookup(f, v, x) == Lookup(f, w, x) {
      AnswersAgree(f, v, w, x);
    }
  }

  /** A value of a new class: every other class answers as before. */
  lemma InsertAddsOneClass<T(!new)>(f: Functions<T>, v: seq<seq<T>>, w: seq<seq<T>>, d: T)
    requires Lawful(f) && v != [] && w != [] && Placed(f, v) && Placed(f, w) && Interned(f, Bag(v))
    requires Lookup(f, v, d) == None && Bag(w) == Bag(v) + multiset{d}
    ensures Interned(f, Bag(w))
    ensures forall x :: Lookup(f, w, x) == if Same(f, d, x) then Some(d) else Lookup(f, v, x)
  {
    hide Lookup, Bag;
    forall y | y in Bag(v) ensures !Same(f, y, d) && !Same(f, d, y) {
      LookupSame(f, v, d, y);
      assert Same(f, d, y) ==> Same(f, y, d);
    }
    assert d in Bag(v) ==> Same(f, d, d);
    forall x: T | true ensures Lookup(f, w, x) == if Same(f, d, x) then Some(d) else Lookup(f, v, x) {
      if Same(f, d, x) {
        LookupSame(f, w, x, d);
      } else {
        AnswersAgree(f, v, w, x);
      }
    }
  }

  /** Tables that hold the same values of x's class give x the same answer. */
  lemma AnswersAgree<T(!new)>(f: Functions<T>, v: seq<seq<T>>, w: seq<seq<T>>, x: T)
    requires Lawful(f) && v != [] && w != [] && Placed(f, v) && Placed(f, w)
    requires Interned(f, Bag(v)) && Interned(f, Bag(w))
    requires forall y :: Same(f, y, x) ==> (y in Bag(v) <==> y in Bag(w))
    ensures Lookup(f, v, x) == Lookup(f, w, x)
  {
    hide Lookup, Bag, Interned;
    if Lookup(f, v, x).Some? {
      LookupSame(f, v, x, Lookup(f, v, x).value);
      LookupSame(f, w, x, Lookup(f, v, x).value);
    }
    if Lookup(f, w, x).Some? {
      LookupSame(f, v, x, Lookup(f, w, x).value);
      LookupSame(f, w, x, Lookup(f, w, x).value);
    }
  }

  lemma NoneStored<T>(f: Functions<T>, w: seq<seq<T>>, x: T)
    requires w != [] && forall y :: y in Bag(w) ==> !Same(f, y, x)
    ensures Lookup(f, w, x) == None
  {
    var i := Slot(f.key(x), |w|);
    if i < |w| {
      forall j | 0 <= j < |w[i]| ensures !Same(f, w[i][j], x) {
        BagHas(w, w[i][j]);
      }
    }
  }

  /** Releasing the value of one class: every other class answers as before. */
  lemma RemoveDropsOneClass<T(!new)>(f: Functions<T>, v: seq<seq<T>>, w: seq<seq<T>>, d: T)
    requires Lawful(f) && v != [] && w != [] && Placed(f, v) && Placed(f, w) && Interned(f, Bag(v))
    requires Bag(v) == Bag(w) + multiset{d}
    ensures Interned(f, Bag(w))
    ensures forall x :: Lookup(f, w, x) == if Same(f, d, x) then None else Lookup(f, v, x)
  {
    hide Lookup, Bag;
    assert d in Bag(v) && Bag(v)[d] == 1;
    forall y | y in Bag(w) ensures y in Bag(v) && Bag(w)[y] == 1 && y != d && !Same(f, y, d) && !Same(f, d, y) {
      assert Bag(v)[y] == Bag(w)[y] + if y == d then 1 else 0;
    }
    forall x: T | true ensures Lookup(f, w, x) == if Same(f, d, x) then None else Lookup(f, v, x) {
      if Same(f, d, x) {
        assert Same(f, x, d);
        forall y | y in Bag(w) ensures !Same(f, y, x) {
          assert Same(f, y, x) ==> Same(f, y, d);
        }
        NoneStored(f, w, x);
      } else {
        AnswersAgree(f, v, w, x);
      }
    }
  }

  lemma {:induction false} ChainInBag<T>(v: seq<seq<T>>, i: nat)
    requires i < |v|
    ensures multiset(v[i]) <= Bag(v)
  {
    if i < |v| - 1 {
      ChainInBag(v[..|v| - 1], i);
    }
  }

  lemma TwiceInChain<T>(c: seq<T>, j: nat, k: nat)
    requires j < k < |c| && c[j] == c[k]
    ensures multiset(c)[c[j]] >= 2
  {
    assert c == c[..k] + [c[k]] + c[k + 1..];
    assert c[..k][j] == c[j];
    assert c[j] in multiset(c[..k]);
  }

  /** No other value of the chain is the same as this one. */
  lemma FindsItself<T>(f: Functions<T>, v: seq<seq<T>>, i: nat, k: nat)
    requires Interned(f, Bag(v)) && i < |v| && k < |v[i]| && Same(f, v[i][k], v[i][k])
    ensures Find(f, v[i], v[i][k]) == k
  {
    var x := v[i][k];
    var j := Find(f, v[i], x);
    ChainInBag(v, i);
    assert v[i][j] in multiset(v[i]) && x in multiset(v[i]);
    assert v[i][j] == x;
    if j < k {
      TwiceInChain(v[i], j, k);
      assert false;
    }
  }

  /** Calls on a table. alloc_func either returns a value for the class of its argument or nothing. */
  datatype Op<!T> = GetOp(data: T, alloc: Option<T -> Option<T>>) | ReleaseOp(data: T)

  predicate OpOk<T>(f: Functions<T>, op: Op<T>) {
    op.GetOp? && op.alloc.Some? && op.alloc.value(op.data).Some? ==> Same(f, op.alloc.value(op.data).value, op.data)
  }

  /** The value that stands for x's class in the bag, if any. */
  ghost predicate Stands<T>(f: Functions<T>, b: multiset<T>, x: T, r: Option<T>) {
    if r.Some? then r.value in b && Same(f, r.value, x) else forall y :: y in b ==> !Same(f, y, x)
  }

  /** One call on a finite map from classes to values: the answer, and the map after it. */
  ghost predicate Step<T>(f: Functions<T>, b: multiset<T>, op: Op<T>, answer: Option<T>, after: multiset<T>) {
    match op
    case ReleaseOp(x) =>
      Stands(f, b, x, answer) && after + (if answer.Some? then multiset{answer.value} else multiset{}) == b
    case GetOp(x, alloc) =>
      || (answer.Some? && Stands(f, b, x, answer) && after == b)
      || (Stands(f, b, x, None) && answer == (if alloc.Some? then alloc.value(x) else None)
          && after == b + if answer.Some? then multiset{answer.value} else multiset{})
  }

  /** A run: the bags between the calls, each related to the next. */
  ghost predicate IsRun<T>(f: Functions<T>, ops: seq<Op<T>>, answers: seq<Option<T>>, bags: seq<multiset<T>>) {
    && |answers| <= |ops| && |bags| == |answers| + 1
    && forall i :: 0 <= i < |answers| ==> Step(f, bags[i], ops[i], answers[i], bags[i + 1])
  }

  /** Every lookup answers with the value that stands for the class. */
  lemma LookupStands<T(!new)>(f: Functions<T>, v: seq<seq<T>>, x: T)
    requires Lawful(f) && v != [] && Placed(f, v) && Interned(f, Bag(v))
    ensures Stands(f, Bag(v), x, Lookup(f, v, x))
  {
    hide Lookup, Bag;
    if Lookup(f, v, x).Some? {
      LookupSame(f, v, x, Lookup(f, v, x).value);
    } else {
      forall y | y in Bag(v) ensures !Same(f, y, x) {
        LookupSame(f, v, x, y);
      }
    }
  }
}
