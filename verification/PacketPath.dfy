/** The packet-buffer path: capture threads, worker threads and the rings between them,
    interleaved at single accesses to shared memory (itf_pcap.c, itf_worker_thread.c, itf_mq_ring.c). */
module PacketPath {
  import opened Bits
  import opened Wrappers
  import opened MqRing

  const POOL_SIZE: nat := 1024
  const WORKER_SIZE: nat := 128

  datatype RingId = PoolRing(p: nat) | WorkerRing(w: nat)
  datatype ThreadId = Capture(p: nat) | Worker(w: nat)

  /** A buffer's address: the n-th record of the array allocated for interface `pool`. */
  datatype Pkt = Pkt(pool: nat, n: nat)

  /** What the buffer holds: the ring it must return to, and the captured bytes. */
  datatype Body = Body(r: Option<RingId>, data: seq<bv8>)

  datatype RingV = RingV(slots: seq<Pkt>, i: nat, o: nat, lock: Option<ThreadId>)

  /** Where a thread stands between two accesses to shared memory. */
  datatype Phase =
    | Idle                                  // about to test its own ring for emptiness
    | ReadSlot                              // found it non-empty, about to load the slot
    | BumpOut(k: Pkt)                       // about to advance `out`
    | Holding(k: Pkt)                       // about to fill (capture) or process (worker) the buffer
    | PutLock(k: Pkt, dst: RingId)          // about to take the lock of dst
    | PutCheck(k: Pkt, dst: RingId)         // about to test dst for fullness
    | PutStore(k: Pkt, dst: RingId)         // about to store into the slot
    | PutBump(k: Pkt, dst: RingId)          // about to advance `in`
    | PutUnlock(k: Pkt, dst: RingId, ok: bool)

  datatype Thread = Thread(phase: Phase, last: nat, frame: seq<bv8>)

  datatype Sys = Sys(
    pools: nat,
    workers: nat,
    rings: map<RingId, RingV>,
    threads: map<ThreadId, Thread>,
    mem: map<Pkt, Body>)

  datatype Event =
    | Quiet
    | Took(id: RingId, k: Pkt)
    | Stored(id: RingId, k: Pkt, data: seq<bv8>)
    | Processed(w: nat, data: seq<bv8>)
    | PoolEmpty(p: nat)       // capture `fail` counter
    | WorkerFull(p: nat, w: nat, data: seq<bv8>)    // capture `fail1` counter: the frame is dropped
    | WorkerEmpty(w: nat)     // worker `fail` counter
    | Leaked(t: ThreadId, k: Pkt)    // capture `fail2` or worker `fail1`: the buffer is lost
    | BadReturnRing(t: ThreadId)     // `enc->r` does not name a ring

  predicate ValidRing(s: Sys, id: RingId) {
    match id case PoolRing(p) => p < s.pools case WorkerRing(w) => w < s.workers
  }

  predicate ValidThread(s: Sys, t: ThreadId) {
    match t case Capture(p) => p < s.pools case Worker(w) => w < s.workers
  }

  predicate ValidPkt(s: Sys, k: Pkt) {
    k.pool < s.pools && k.n < POOL_SIZE
  }

  function Cap(id: RingId): nat {
    if id.PoolRing? then POOL_SIZE else WORKER_SIZE
  }

  /** The ring a thread consumes from; no other thread does. */
  function Source(t: ThreadId): RingId {
    match t case Capture(p) => PoolRing(p) case Worker(w) => WorkerRing(w)
  }

  predicate InPut(ph: Phase) {
    ph.PutLock? || ph.PutCheck? || ph.PutStore? || ph.PutBump? || ph.PutUnlock?
  }

  predicate InLock(ph: Phase) {
    InPut(ph) && !ph.PutLock?
  }

  /** The thread has the buffer in its hands: taken off a ring and not yet published on another. */
  predicate Owns(ph: Phase, k: Pkt) {
    match ph
    case Holding(k') => k' == k
    case PutLock(k', _) => k' == k
    case PutCheck(k', _) => k' == k
    case PutStore(k', _) => k' == k
    case PutBump(k', _) => k' == k
    case PutUnlock(k', _, ok) => k' == k && !ok
    case _ => false
  }

  ghost predicate Wf(s: Sys) {
    && s.workers > 0
    && (forall id :: id in s.rings <==> ValidRing(s, id))
    && (forall id :: id in s.rings ==> RingShape(id, s.rings[id]))
    && (forall t :: t in s.threads <==> ValidThread(s, t))
    && (forall t :: t in s.threads ==> s.threads[t].last < s.workers)
    && (forall t :: t in s.threads && InPut(s.threads[t].phase) ==> s.threads[t].phase.dst in s.rings)
  }

  function BodyOf(s: Sys, k: Pkt): Body {
    if k in s.mem then s.mem[k] else Body(None, [])
  }

  function QueueOf(q: RingV): seq<Pkt>
    requires |q.slots| > 0
  {
    Contents(q.slots, q.i, q.o)
  }

  function Queue(s: Sys, id: RingId): seq<Pkt>
    requires id in s.rings && |s.rings[id].slots| > 0
  {
    QueueOf(s.rings[id])
  }

  // ---- Single accesses to a ring ----

  predicate Full(q: RingV) { (q.i - q.o) % U32 == |q.slots| }

  function SlotAt(q: RingV, x: nat): (j: nat)
    requires IsPow2(|q.slots|)
    ensures j == x % |q.slots| && j < |q.slots|
  {
    MaskPow2(x, |q.slots|);
    BitAnd(x, |q.slots| - 1)
  }

  function Store(q: RingV, k: Pkt): RingV
    requires IsPow2(|q.slots|)
  {
    RingV(q.slots[SlotAt(q, q.i) := k], q.i, q.o, q.lock)
  }

  function BumpedIn(q: RingV): RingV { RingV(q.slots, (q.i + 1) % U32, q.o, q.lock) }

  function BumpedOut(q: RingV): RingV { RingV(q.slots, q.i, (q.o + 1) % U32, q.lock) }

  function WithLock(q: RingV, l: Option<ThreadId>): RingV { RingV(q.slots, q.i, q.o, l) }

  /** The lengths of captured frames the handler lets through. */
  predicate Accepted(frame: seq<bv8>) {
    10 <= |frame| <= 2000
  }

  /** One access of one thread: its next record, the ring it writes, the buffer it writes. */
  datatype Act = Act(th: Thread, ring: Option<(RingId, RingV)>, body: Option<Body>, e: Event)

  /** The access changes only the thread's own record. */
  function Next(th: Thread, ph: Phase, e: Event): Act {
    Act(Thread(ph, th.last, th.frame), None, None, e)
  }

  /** The access also writes ring id. */
  function Write(th: Thread, ph: Phase, id: RingId, q: RingV, e: Event): Act {
    Act(Thread(ph, th.last, th.frame), Some((id, q)), None, e)
  }

  /** An idle thread calls dering on its own ring; capture first picks the next worker in turn. */
  function ActIdle(s: Sys, t: ThreadId, frame: seq<bv8>): Act
    requires Wf(s) && t in s.threads
  {
    var th := s.threads[t];
    var empty := s.rings[Source(t)].i == s.rings[Source(t)].o;
    match t
    case Worker(w) =>
      if empty then Next(th, Idle, WorkerEmpty(w)) else Next(th, ReadSlot, Quiet)
    case Capture(p) =>
      if !Accepted(frame) then Next(th, th.phase, Quiet)
      else
        Act(Thread(if empty then Idle else ReadSlot, (th.last + 1) % s.workers, frame),
            None, None, if empty then PoolEmpty(p) else Quiet)
  }

  /** Capture fills the buffer and turns to the worker's ring; a worker processes it and turns to enc->r. */
  function ActHolding(s: Sys, t: ThreadId, k: Pkt): Act
    requires Wf(s) && t in s.threads
  {
    var th := s.threads[t];
    match t
    case Capture(p) =>
      Act(Thread(PutLock(k, WorkerRing(th.last)), th.last, th.frame),
          None, Some(Body(Some(PoolRing(p)), th.frame)), Quiet)
    case Worker(w) =>
      var b := BodyOf(s, k);
      if b.r.Some? && b.r.value in s.rings then Next(th, PutLock(k, b.r.value), Processed(w, b.data))
      else Next(th, th.phase, BadReturnRing(t))
  }

  /** After the unlock of a refused put, capture turns to its own ring; any other refusal loses the buffer. */
  function ActUnlock(s: Sys, t: ThreadId, k: Pkt, dst: RingId, ok: bool): Act
    requires Wf(s) && t in s.threads && dst in s.rings
  {
    var th := s.threads[t];
    var free := WithLock(s.rings[dst], None);
    if ok then Write(th, Idle, dst, free, Quiet)
    else if t.Capture? && dst.WorkerRing? then
      Write(th, PutLock(k, Source(t)), dst, free, WorkerFull(t.p, dst.w, BodyOf(s, k).data))
    else Write(th, Idle, dst, free, Leaked(t, k))
  }

  function ActOf(s: Sys, t: ThreadId, frame: seq<bv8>): Act
    requires Wf(s) && t in s.threads
  {
    var th := s.threads[t];
    var src := Source(t);
    match th.phase
    case Idle => ActIdle(s, t, frame)
    case ReadSlot =>
      Next(th, BumpOut(s.rings[src].slots[SlotAt(s.rings[src], s.rings[src].o)]), Quiet)
    case BumpOut(k) =>
      Write(th, Holding(k), src, BumpedOut(s.rings[src]), Took(src, k))
    case Holding(k) => ActHolding(s, t, k)
    case PutLock(k, dst) =>
      if s.rings[dst].lock.Some? then Next(th, th.phase, Quiet)
      else Write(th, PutCheck(k, dst), dst, WithLock(s.rings[dst], Some(t)), Quiet)
    case PutCheck(k, dst) =>
      if Full(s.rings[dst]) then Next(th, PutUnlock(k, dst, false), Quiet)
      else Next(th, PutStore(k, dst), Quiet)
    case PutStore(k, dst) =>
      Write(th, PutBump(k, dst), dst, Store(s.rings[dst], k), Quiet)
    case PutBump(k, dst) =>
      Write(th, PutUnlock(k, dst, true), dst, BumpedIn(s.rings[dst]), Stored(dst, k, BodyOf(s, k).data))
    case PutUnlock(k, dst, ok) => ActUnlock(s, t, k, dst, ok)
  }

  function Apply(s: Sys, t: ThreadId, a: Act): Sys {
    Sys(s.pools, s.workers,
        if a.ring.Some? then s.rings[a.ring.value.0 := a.ring.value.1] else s.rings,
        s.threads[t := a.th],
        if a.body.Some? && InPut(a.th.phase) then s.mem[a.th.phase.k := a.body.value] else s.mem)
  }

  /** Thread t performs its next access; `frame` is what the wire offers an idle capture thread. */
  function Exec(s: Sys, t: ThreadId, frame: seq<bv8>): Sys
    requires Wf(s) && t in s.threads
  {
    Apply(s, t, ActOf(s, t, frame))
  }

  lemma SizesArePow2(id: RingId)
    ensures IsPow2(Cap(id))
  {
    assert Pow2(5) == 32;
    Pow2Splits(5, 5);
    Pow2Splits(5, 2);
    assert Pow2(10) == 1024 && Pow2(7) == 128;
  }

  ghost predicate RingShape(id: RingId, q: RingV) {
    |q.slots| == Cap(id) && IsPow2(|q.slots|) && q.i < U32 && q.o < U32
  }

  // ---- What an access can be, read off the phase before it ----

  lemma EventShape(s: Sys, t: ThreadId, frame: seq<bv8>)
    requires Wf(s) && t in s.threads
    ensures var ph := s.threads[t].phase;
            var a := ActOf(s, t, frame);
            && (a.e.Took? <==> ph.BumpOut?) && (a.e.Stored? <==> ph.PutBump?)
            && (ph.BumpOut? ==> a.e == Took(Source(t), ph.k) && a.th.phase == Holding(ph.k))
            && (ph.PutBump? ==>
                  && a.e == Stored(ph.dst, ph.k, BodyOf(s, ph.k).data)
                  && a.th.phase == PutUnlock(ph.k, ph.dst, true))
            && (a.e.Processed? ==> ph.Holding? && t == Worker(a.e.w) && a.e.data == BodyOf(s, ph.k).data)
  {
  }

  lemma OwnerShape(s: Sys, t: ThreadId, frame: seq<bv8>, k: Pkt)
    requires Wf(s) && t in s.threads
    ensures var ph := s.threads[t].phase;
            var a := ActOf(s, t, frame);
            a.e.Took? || a.e.Stored? || a.e.Leaked? || (Owns(a.th.phase, k) <==> Owns(ph, k))
  {
  }

  lemma TouchShape(s: Sys, t: ThreadId, frame: seq<bv8>)
    requires Wf(s) && t in s.threads
    ensures var ph := s.threads[t].phase;
            var r := ActOf(s, t, frame).ring;
            && (ph.BumpOut? ==> r == Some((Source(t), BumpedOut(s.rings[Source(t)]))))
            && (ph.PutStore? ==> r == Some((ph.dst, Store(s.rings[ph.dst], ph.k))))
            && (ph.PutBump? ==> r == Some((ph.dst, BumpedIn(s.rings[ph.dst]))))
            && (r.None? || ph.BumpOut? || ph.PutStore? || ph.PutBump?
                || (InPut(ph) && r.value == (ph.dst, WithLock(s.rings[ph.dst], r.value.1.lock))))
  {
  }

  lemma PhaseShape(s: Sys, t: ThreadId, frame: seq<bv8>)
    requires Wf(s) && t in s.threads
    ensures var ph := s.threads[t].phase;
            var ph' := ActOf(s, t, frame).th.phase;
            && (InLock(ph) && !ph.PutUnlock? ==> InLock(ph') && ph'.dst == ph.dst)
            && (ph.PutLock? && ActOf(s, t, frame).ring.Some? ==> InLock(ph') && ph'.dst == ph.dst)
  {
  }

  lemma LockShape(s: Sys, t: ThreadId, frame: seq<bv8>)
    requires Wf(s) && t in s.threads
    ensures var ph := s.threads[t].phase;
            var ph' := ActOf(s, t, frame).th.phase;
            var r := ActOf(s, t, frame).ring;
            && (r.Some? && r.value.1.lock != s.rings[r.value.0].lock ==>
                  if ph.PutLock? then r.value.1.lock == Some(t) && InLock(ph') && ph'.dst == r.value.0
                  else ph.PutUnlock? && r.value.1.lock.None?)
            && (ph.PutLock? && r.Some? ==> s.rings[ph.dst].lock.None?)
            && (InLock(ph) && !ph.PutUnlock? ==> InLock(ph') && ph'.dst == ph.dst)
            && (ph.PutUnlock? ==> r.Some? && r.value.0 == ph.dst && r.value.1.lock.None?)
  {
    hide InLock;
    PhaseShape(s, t, frame);
  }

  lemma BodyShape(s: Sys, t: ThreadId, frame: seq<bv8>)
    requires Wf(s) && t in s.threads
    ensures var ph := s.threads[t].phase;
            var a := ActOf(s, t, frame);
            a.body.Some? ==> t.Capture? && ph.Holding? && a.th.phase.PutLock? && a.th.phase.k == ph.k
                             && a.body.value.r == Some(PoolRing(t.p))
  {
  }

  lemma TouchIsWf(s: Sys, t: ThreadId, frame: seq<bv8>)
    requires Wf(s) && t in s.threads
    ensures var r := ActOf(s, t, frame).ring;
            r.Some? ==> r.value.0 in s.rings && RingShape(r.value.0, r.value.1)
  {
    hide ActOf;
    TouchShape(s, t, frame);
    assert ValidThread(s, t) && ValidRing(s, Source(t));
  }

  lemma ActIsWf(s: Sys, t: ThreadId, frame: seq<bv8>)
    requires Wf(s) && t in s.threads
    ensures var a := ActOf(s, t, frame);
            && a.th.last < s.workers
            && (InPut(a.th.phase) ==> a.th.phase.dst in s.rings)
            && (a.ring.Some? ==> a.ring.value.0 in s.rings && RingShape(a.ring.value.0, a.ring.value.1))
  {
    hide RingShape;
    TouchIsWf(s, t, frame);
    assert ValidThread(s, t);
    assert ValidRing(s, Source(t)) && ValidRing(s, WorkerRing(s.threads[t].last));
  }

  lemma ExecKeepsWf(s: Sys, t: ThreadId, frame: seq<bv8>)
    requires Wf(s) && t in s.threads
    ensures Wf(Exec(s, t, frame))
  {
    hide ActOf;
    ActIsWf(s, t, frame);
  }
}
