/** The packet ring of itf_mq_ring.c: a power-of-two array under two free-running 32-bit indices. */
module MqRing {
  import opened Bits
  import opened Wrappers

  /** Unsigned 32-bit difference of the two indices. */
  function Len(i: int, o: int): (n: nat) {
    (i - o) % U32
  }

  /** The masked slot of the k-th entry counted from index o. */
  function Slot(n: int, o: int, k: int): (j: nat)
    requires n > 0
    ensures j < n
  {
    (o + k) % n
  }

  /** The queued values, oldest first. */
  function Contents<T>(slots: seq<T>, i: int, o: int): (q: seq<T>)
    requires |slots| > 0
    ensures |q| == Len(i, o)
  {
    seq(Len(i, o), k => slots[Slot(|slots|, o, k)])
  }

  lemma SlotsDiffer(x: int, y: int, n: int)
    requires x < y < x + n
    ensures x % n != y % n
  {
    RemainderMoves(x, y - x, n);
  }

  /** No two live entries share a masked slot, whatever the free-running positions are. */
  lemma LiveSlotsNeverCollide(n: nat, i: nat, o: nat, a: nat, b: nat)
    requires IsPow2(n) && n <= U32
    requires Len(i, o) <= n && a < Len(i, o) && b < Len(i, o) && a != b
    ensures BitAnd((o + a) % U32, n - 1) != BitAnd((o + b) % U32, n - 1)
  {
    hide IsPow2, BitAnd;
    MaskPow2((o + a) % U32, n);
    MaskPow2((o + b) % U32, n);
    WrapKeepsSlot(o + a, n);
    WrapKeepsSlot(o + b, n);
    SlotsDiffer(o + if a < b then a else b, o + if a < b then b else a, n);
  }

  lemma ModAdd(x: int, d: int, n: int)
    requires n > 0
    ensures (x % n + d) % n == (x + d) % n
  {
    assert x == n * (x / n) + x % n;
    SameRemainder(x + d, x % n + d, n, x / n);
  }

  lemma LenAdds(i: nat, o: nat)
    ensures (o + Len(i, o)) % U32 == i % U32
  {
  }

  /** The write position is the slot just past the newest entry. */
  lemma InSlot(n: nat, i: nat, o: nat)
    requires IsPow2(n) && n <= U32
    ensures i % n == Slot(n, o, Len(i, o))
  {
    hide IsPow2;
    LenAdds(i, o);
    WrapKeepsSlot(i, n);
    WrapKeepsSlot(o + Len(i, o), n);
  }

  lemma LenIsZero(i: nat, o: nat)
    requires i < U32 && o < U32
    ensures Len(i, o) == 0 <==> i == o
  {
  }

  lemma LenAfterPut(i: nat, o: nat)
    requires Len(i, o) + 1 < U32
    ensures Len((i + 1) % U32, o) == Len(i, o) + 1
  {
  }

  lemma LenAfterGet(i: nat, o: nat)
    requires 0 < Len(i, o)
    ensures Len(i, (o + 1) % U32) == Len(i, o) - 1
  {
  }

  lemma NextSlot(n: nat, o: nat, k: nat)
    requires IsPow2(n) && n <= U32
    ensures Slot(n, (o + 1) % U32, k) == Slot(n, o, k + 1)
  {
    hide IsPow2, Slot;
    WrapKeepsSlot(o + 1, n);
    SlotByRemainder(n, (o + 1) % U32, o + 1, k);
    SlotShifts(n, o, k);
  }

  lemma SlotByRemainder(n: int, x: int, y: int, k: int)
    requires n > 0 && x % n == y % n
    ensures Slot(n, x, k) == Slot(n, y, k)
  {
    ModAdd(x, k, n);
    ModAdd(y, k, n);
  }

  lemma SlotShifts(n: int, o: int, k: int)
    requires n > 0
    ensures Slot(n, o + 1, k) == Slot(n, o, k + 1)
  {
  }

  lemma PutAppends<T>(slots: seq<T>, i: nat, o: nat, v: T)
    requires IsPow2(|slots|) && |slots| < U32
    requires Len(i, o) < |slots|
    ensures Contents(slots[i % |slots| := v], (i + 1) % U32, o) == Contents(slots, i, o) + [v]
  {
    var n := |slots|;
    InSlot(n, i, o);
    LenAfterPut(i, o);
    forall k: nat | k < Len(i, o) ensures Slot(n, o, k) != i % n {
      SlotsDiffer(o + k, o + Len(i, o), n);
    }
  }

  /** Storing into the write position does not disturb any queued value. */
  lemma StoreIsInvisible<T>(slots: seq<T>, i: nat, o: nat, v: T)
    requires IsPow2(|slots|) && |slots| < U32
    requires Len(i, o) < |slots|
    ensures Contents(slots[i % |slots| := v], i, o) == Contents(slots, i, o)
  {
    var n := |slots|;
    InSlot(n, i, o);
    forall k: nat | k < Len(i, o) ensures Slot(n, o, k) != i % n {
      SlotsDiffer(o + k, o + Len(i, o), n);
    }
  }

  lemma GetDropsFirst<T>(slots: seq<T>, i: nat, o: nat)
    requires IsPow2(|slots|) && |slots| <= U32
    requires 0 < Len(i, o)
    ensures Contents(slots, i, (o + 1) % U32) == Contents(slots, i, o)[1..]
    ensures Contents(slots, i, o)[0] == slots[o % |slots|]
  {
    var n := |slots|;
    LenAfterGet(i, o);
    var rest := Contents(slots, i, (o + 1) % U32);
    forall k: nat | k < |rest| ensures rest[k] == Contents(slots, i, o)[1..][k] {
      NextSlot(n, o, k);
    }
  }

  class Ring<T(0)> {
    var idx_buff: array<T>
    var size: nat
    var inIdx: nat
    var outIdx: nat

    ghost predicate Valid()
      reads this, idx_buff
    {
      && IsPow2(size) && size < U32 && idx_buff.Length == size
      && inIdx < U32 && outIdx < U32
      && Len(inIdx, outIdx) <= size
    }

    ghost function Queue(): seq<T>
      reads this, idx_buff
      requires Valid()
    {
      Contents(idx_buff[..], inIdx, outIdx)
    }

    constructor (sz: nat)
      requires IsPow2(sz) && sz < U32
      ensures Valid() && fresh(idx_buff) && size == sz && Queue() == []
    {
      idx_buff := new T[sz];
      size := sz;
      inIdx, outIdx := 0, 0;
    }

    method Enring(value: T) returns (ok: bool)
      requires Valid()
      modifies this`inIdx, idx_buff
      ensures Valid()
      ensures ok <==> |old(Queue())| < size
      ensures Queue() == if ok then old(Queue()) + [value] else old(Queue())
    {
      hide Contents, Slot, BitAnd, IsPow2;
      if (inIdx - outIdx) % U32 == size {
        return false;
      }
      PutAppends(idx_buff[..], inIdx, outIdx, value);
      LenAfterPut(inIdx, outIdx);
      MaskPow2(inIdx, size);
      idx_buff[BitAnd(inIdx, size - 1)] := value;
      assert idx_buff[..] == old(idx_buff[..])[inIdx % size := value];
      inIdx := (inIdx + 1) % U32;
      ok := true;
    }

    method Dering() returns (value: Option<T>)
      requires Valid()
      modifies this`outIdx
      ensures Valid()
      ensures value == if old(Queue()) == [] then None else Some(old(Queue())[0])
      ensures Queue() == if value.None? then [] else old(Queue())[1..]
    {
      hide Contents, Slot, Len, BitAnd, IsPow2;
      LenIsZero(inIdx, outIdx);
      if inIdx == outIdx {
        return None;
      }
      GetDropsFirst(idx_buff[..], inIdx, outIdx);
      LenAfterGet(inIdx, outIdx);
      MaskPow2(outIdx, size);
      value := Some(idx_buff[BitAnd(outIdx, size - 1)]);
      outIdx := (outIdx + 1) % U32;
    }
  }

  /** One call on a ring, and what it reports. */
  datatype Op<T> = Put(v: T) | Get
  datatype Answer<T> = PutDone(ok: bool) | GetDone(got: Option<T>)

  /** A bounded FIFO of capacity cap: the reference the ring must agree with. */
  function Fifo<T>(cap: nat, q: seq<T>, op: Op<T>): (seq<T>, Answer<T>) {
    match op
    case Put(v) => if |q| < cap then (q + [v], PutDone(true)) else (q, PutDone(false))
    case Get => if q == [] then (q, GetDone(None)) else (q[1..], GetDone(Some(q[0])))
  }

  function FifoRun<T>(cap: nat, q: seq<T>, ops: seq<Op<T>>): (seq<T>, seq<Answer<T>>) {
    if ops == [] then (q, [])
    else
      var (q1, ans) := FifoRun(cap, q, ops[..|ops| - 1]);
      var (q2, a) := Fifo(cap, q1, ops[|ops| - 1]);
      (q2, ans + [a])
  }

  /** Every run of calls, from any valid index position, answers exactly as the bounded FIFO does. */
  method Run<T(0)>(r: Ring<T>, ops: seq<Op<T>>) returns (ans: seq<Answer<T>>)
    requires r.Valid()
    modifies r, r.idx_buff
    ensures r.Valid() && r.idx_buff == old(r.idx_buff) && r.size == old(r.size)
    ensures (r.Queue(), ans) == FifoRun(r.size, old(r.Queue()), ops)
  {
    ans := [];
    for k := 0 to |ops|
      invariant r.Valid() && r.idx_buff == old(r.idx_buff) && r.size == old(r.size)
      invariant (r.Queue(), ans) == FifoRun(r.size, old(r.Queue()), ops[..k])
    {
      assert ops[..k + 1][..k] == ops[..k];
      match ops[k] {
        case Put(v) =>
          var ok := r.Enring(v);
          ans := ans + [PutDone(ok)];
        case Get =>
          var got := r.Dering();
          ans := ans + [GetDone(got)];
      }
    }
    assert ops[..|ops|] == ops;
  }
}
