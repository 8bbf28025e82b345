/** Safety of the packet-buffer path over every interleaving: buffers are conserved and owned by one
    place at a time, the give-back branches that would lose a buffer never run, and rings are FIFO. */
module PacketSafety {
  import opened Bits
  import opened Wrappers
  import opened MqRing
  import opened PacketPath
  import opened Sequences

  /** Where a buffer is: queued on a ring, or in a thread's hands. */
  datatype Place = OnRing(id: RingId) | InHand(t: ThreadId)

  predicate Room(s: Sys, id: RingId)
    requires id in s.rings
  {
    Len(s.rings[id].i, s.rings[id].o) < Cap(id)
  }

  ghost predicate RingOk(s: Sys, id: RingId)
    requires Wf(s) && id in s.rings
  {
    var q := s.rings[id];
    && Len(q.i, q.o) <= Cap(id)
    && Distinct(Queue(s, id))
    && (q.lock.Some? ==>
          && q.lock.value in s.threads
          && InLock(s.threads[q.lock.value].phase)
          && s.threads[q.lock.value].phase.dst == id)
  }

  /** The rings a thread may put buffer k on. */
  predicate DstOk(t: ThreadId, k: Pkt, dst: RingId) {
    dst == PoolRing(k.pool) || (t.Capture? && dst.WorkerRing?)
  }

  ghost predicate ThreadOk(s: Sys, t: ThreadId)
    requires Wf(s) && t in s.threads
  {
    var src := Source(t);
    var ph := s.threads[t].phase;
    && (ph.ReadSlot? ==> Queue(s, src) != [])
    && (ph.BumpOut? ==> Queue(s, src) != [] && Queue(s, src)[0] == ph.k)
    && (InPut(ph) ==> DstOk(t, ph.k, ph.dst))
    && (InLock(ph) ==> s.rings[ph.dst].lock == Some(t))
    && (ph.PutStore? || ph.PutBump? ==> Room(s, ph.dst))
    && (ph.PutBump? ==> s.rings[ph.dst].slots[s.rings[ph.dst].i % Cap(ph.dst)] == ph.k)
    && (ph.PutUnlock? && !ph.ok ==> t.Capture? && ph.dst.WorkerRing?)
  }

  ghost predicate EveryPacketPlaced(s: Sys, at: map<Pkt, Place>) {
    && (forall k :: k in at <==> ValidPkt(s, k))
    && (forall k :: k in at ==> match at[k] case OnRing(id) => id in s.rings case InHand(t) => t in s.threads)
  }

  ghost predicate QueuesMatch(s: Sys, at: map<Pkt, Place>)
    requires Wf(s)
  {
    forall id, k :: id in s.rings ==> (k in Queue(s, id) <==> k in at && at[k] == OnRing(id))
  }

  ghost predicate HandsMatch(s: Sys, at: map<Pkt, Place>) {
    forall t, k :: t in s.threads ==> (Owns(s.threads[t].phase, k) <==> k in at && at[k] == InHand(t))
  }

  ghost predicate HomesOk(s: Sys, at: map<Pkt, Place>) {
    forall k :: k in at ==> HomeOk(s, k, at[k])
  }

  ghost predicate PlacesOk(s: Sys, at: map<Pkt, Place>)
    requires Wf(s)
  {
    EveryPacketPlaced(s, at) && QueuesMatch(s, at) && HandsMatch(s, at) && HomesOk(s, at)
  }

  /** Buffers stay on or return to their own pool ring; past the capture thread they carry its name. */
  ghost predicate HomeOk(s: Sys, k: Pkt, at: Place) {
    match at
    case OnRing(id) =>
      if id.PoolRing? then id == PoolRing(k.pool) else k in s.mem && s.mem[k].r == Some(PoolRing(k.pool))
    case InHand(t) =>
      && (t.Capture? ==> t.p == k.pool)
      && ((t in s.threads && !s.threads[t].phase.Holding?) || t.Worker? ==>
            k in s.mem && s.mem[k].r == Some(PoolRing(k.pool)))
  }

  ghost predicate Inv(s: Sys, at: map<Pkt, Place>) {
    && Wf(s)
    && (forall id :: id in s.rings ==> RingOk(s, id))
    && (forall t :: t in s.threads ==> ThreadOk(s, t))
    && PlacesOk(s, at)
  }

  // ---- Counting: a buffer in hand leaves room on its pool ring ----

  lemma {:induction false} NoDupFits<T>(q: seq<T>, all: set<T>)
    requires Distinct(q) && forall x :: x in q ==> x in all
    ensures |q| <= |all|
  {
    if q != [] {
      var x := q[|q| - 1];
      NoDupFits(q[..|q| - 1], all - {x});
    }
  }

  function PoolPackets(p: nat, n: nat): (all: set<Pkt>)
    ensures |all| == n
    ensures forall k :: k in all <==> k.pool == p && k.n < n
  {
    if n == 0 then {} else PoolPackets(p, n - 1) + {Pkt(p, n - 1)}
  }

  lemma PoolHasRoom(s: Sys, at: map<Pkt, Place>, k: Pkt)
    requires Inv(s, at) && k in at && at[k].InHand?
    ensures PoolRing(k.pool) in s.rings && Room(s, PoolRing(k.pool))
  {
    var id := PoolRing(k.pool);
    assert ValidRing(s, id);
    var q := Queue(s, id);
    forall x | x in q ensures x in PoolPackets(k.pool, POOL_SIZE) - {k} {
      assert x in at && at[x] == OnRing(id);
      assert HomeOk(s, x, at[x]);
    }
    assert RingOk(s, id);
    NoDupFits(q, PoolPackets(k.pool, POOL_SIZE) - {k});
  }

  // ---- One access ----

  /** What an access does to ring id, read off the event it reports. */
  function Effect(q: seq<Pkt>, id: RingId, e: Event): seq<Pkt> {
    match e
    case Took(id', _) => if id' == id && q != [] then q[1..] else q
    case Stored(id', k, _) => if id' == id then q + [k] else q
    case _ => q
  }

  function Moved(at: map<Pkt, Place>, t: ThreadId, e: Event): map<Pkt, Place> {
    match e
    case Took(_, k) => at[k := InHand(t)]
    case Stored(id, k, _) => at[k := OnRing(id)]
    case _ => at
  }

  lemma StoreOnRing(id: RingId, q: RingV, k: Pkt)
    requires RingShape(id, q) && Len(q.i, q.o) < Cap(id)
    ensures QueueOf(Store(q, k)) == QueueOf(q)
  {
    StoreIsInvisible(q.slots, q.i, q.o, k);
  }

  lemma BumpInOnRing(id: RingId, q: RingV, k: Pkt)
    requires RingShape(id, q) && Len(q.i, q.o) < Cap(id) && q.slots[q.i % Cap(id)] == k
    ensures QueueOf(BumpedIn(q)) == QueueOf(q) + [k]
  {
    PutAppends(q.slots, q.i, q.o, k);
    assert q.slots[q.i % |q.slots| := k] == q.slots;
  }

  lemma BumpOutOnRing(id: RingId, q: RingV)
    requires RingShape(id, q) && QueueOf(q) != []
    ensures QueueOf(BumpedOut(q)) == QueueOf(q)[1..]
    ensures QueueOf(q)[0] == q.slots[q.o % Cap(id)]
  {
    GetDropsFirst(q.slots, q.i, q.o);
  }

  /** The ring an access writes, before and after. */
  lemma TouchedRing(s: Sys, at: map<Pkt, Place>, t: ThreadId, frame: seq<bv8>)
    requires Inv(s, at) && t in s.threads
    requires ActOf(s, t, frame).ring.Some?
    ensures var a := ActOf(s, t, frame);
            var (id, q) := a.ring.value;
            && id in s.rings && |q.slots| == Cap(id)
            && QueueOf(q) == Effect(Queue(s, id), id, a.e)
            && |QueueOf(q)| <= Cap(id)
  {
    hide ActOf, PlacesOk, Distinct, Contents;
    TouchShape(s, t, frame);
    TouchIsWf(s, t, frame);
    EventShape(s, t, frame);
    var id := ActOf(s, t, frame).ring.value.0;
    var q := s.rings[id];
    assert RingOk(s, id) && ThreadOk(s, t);
    match s.threads[t].phase
    case BumpOut(k) => BumpOutOnRing(id, q);
    case PutStore(k, dst) => StoreOnRing(id, q, k);
    case PutBump(k, dst) => BumpInOnRing(id, q, k);
    case _ =>
  }

  lemma UntouchedRings(s: Sys, at: map<Pkt, Place>, t: ThreadId, frame: seq<bv8>, id: RingId)
    requires Inv(s, at) && t in s.threads && id in s.rings
    requires var a := ActOf(s, t, frame); a.ring.None? || a.ring.value.0 != id
    ensures Effect(Queue(s, id), id, ActOf(s, t, frame).e) == Queue(s, id)
  {
    hide ActOf, PlacesOk;
    TouchShape(s, t, frame);
    EventShape(s, t, frame);
  }

  lemma StepQueues(s: Sys, at: map<Pkt, Place>, t: ThreadId, frame: seq<bv8>, id: RingId)
    requires Inv(s, at) && t in s.threads && id in s.rings
    ensures Wf(Exec(s, t, frame))
    ensures var s' := Exec(s, t, frame);
            id in s'.rings && Queue(s', id) == Effect(Queue(s, id), id, ActOf(s, t, frame).e)
  {
    hide ActOf, PlacesOk;
    ExecKeepsWf(s, t, frame);
    var r := ActOf(s, t, frame).ring;
    if r.Some? && r.value.0 == id {
      TouchedRing(s, at, t, frame);
    } else {
      UntouchedRings(s, at, t, frame, id);
    }
  }

  /** A buffer being published is in the publisher's hands, hence on no ring. */
  lemma StoredWasInHand(s: Sys, at: map<Pkt, Place>, t: ThreadId, frame: seq<bv8>)
    requires Inv(s, at) && t in s.threads
    ensures var e := ActOf(s, t, frame).e;
            && (e.Stored? ==> e.k in at && at[e.k] == InHand(t) && e.id in s.rings && DstOk(t, e.k, e.id))
            && (e.Took? ==> e.id == Source(t) && e.id in s.rings && Queue(s, e.id) != [] && Queue(s, e.id)[0] == e.k
                            && e.k in at && at[e.k] == OnRing(e.id))
  {
    hide ActOf;
    EventShape(s, t, frame);
    assert ThreadOk(s, t) && ValidThread(s, t) && ValidRing(s, Source(t));
    var ph := s.threads[t].phase;
    if ph.PutBump? { assert Owns(ph, ph.k); }
    if ph.BumpOut? { assert ph.k in Queue(s, Source(t)); }
  }

  lemma StepNoDup(s: Sys, at: map<Pkt, Place>, t: ThreadId, frame: seq<bv8>, id: RingId)
    requires Inv(s, at) && t in s.threads && id in s.rings
    ensures Distinct(Effect(Queue(s, id), id, ActOf(s, t, frame).e))
  {
    hide ActOf, ThreadOk, Contents;
    StoredWasInHand(s, at, t, frame);
    assert RingOk(s, id);
    var e := ActOf(s, t, frame).e;
    if e.Stored? && e.id == id { NoDupGrows(Queue(s, id), e.k); }
  }

  lemma NoDupGrows<T>(q: seq<T>, k: T)
    requires Distinct(q) && k !in q
    ensures Distinct(q + [k])
  {
  }

  lemma StepLock(s: Sys, at: map<Pkt, Place>, t: ThreadId, frame: seq<bv8>, id: RingId)
    requires Inv(s, at) && t in s.threads && id in s.rings
    ensures var s' := Exec(s, t, frame);
            id in s'.rings
            && (s'.rings[id].lock.Some? ==>
                  var u := s'.rings[id].lock.value;
                  u in s'.threads && InLock(s'.threads[u].phase) && s'.threads[u].phase.dst == id)
  {
    hide ActOf, PlacesOk, Distinct, Contents;
    LockShape(s, t, frame);
    TouchIsWf(s, t, frame);
    assert RingOk(s, id) && ThreadOk(s, t);
  }

  lemma StepRings(s: Sys, at: map<Pkt, Place>, t: ThreadId, frame: seq<bv8>, id: RingId)
    requires Inv(s, at) && t in s.threads && id in s.rings
    ensures Wf(Exec(s, t, frame)) && id in Exec(s, t, frame).rings
    ensures RingOk(Exec(s, t, frame), id)
  {
    hide ActOf, PlacesOk, Distinct;
    StepQueues(s, at, t, frame, id);
    StepNoDup(s, at, t, frame, id);
    StepLock(s, at, t, frame, id);
    assert RingOk(s, id);
    if ActOf(s, t, frame).ring.Some? { TouchedRing(s, at, t, frame); }
  }

  // ---- The thread that moved ----

  lemma OwnerHome(s: Sys, at: map<Pkt, Place>, t: ThreadId, k: Pkt)
    requires Inv(s, at) && t in s.threads && Owns(s.threads[t].phase, k)
    ensures k in at && at[k] == InHand(t) && HomeOk(s, k, InHand(t))
  {
  }

  lemma IdleThread(s: Sys, at: map<Pkt, Place>, t: ThreadId, frame: seq<bv8>)
    requires Inv(s, at) && t in s.threads && s.threads[t].phase.Idle?
    ensures Wf(Exec(s, t, frame)) && t in Exec(s, t, frame).threads
    ensures ThreadOk(Exec(s, t, frame), t)
  {
    hide RingOk, PlacesOk, Contents;
    ExecKeepsWf(s, t, frame);
    assert Wf(s);
    var q := s.rings[Source(t)];
    assert q.i != q.o ==> Len(q.i, q.o) != 0;
  }

  lemma TakingThread(s: Sys, at: map<Pkt, Place>, t: ThreadId, frame: seq<bv8>)
    requires Inv(s, at) && t in s.threads
    requires var ph := s.threads[t].phase; ph.ReadSlot? || ph.BumpOut?
    ensures Wf(Exec(s, t, frame)) && t in Exec(s, t, frame).threads
    ensures ThreadOk(Exec(s, t, frame), t)
  {
    hide RingOk, PlacesOk, Distinct, Contents;
    ExecKeepsWf(s, t, frame);
    assert ThreadOk(s, t);
    if s.threads[t].phase.ReadSlot? { BumpOutOnRing(Source(t), s.rings[Source(t)]); }
  }

  lemma HoldingThread(s: Sys, at: map<Pkt, Place>, t: ThreadId, frame: seq<bv8>)
    requires Inv(s, at) && t in s.threads && s.threads[t].phase.Holding?
    ensures Wf(Exec(s, t, frame)) && t in Exec(s, t, frame).threads
    ensures ThreadOk(Exec(s, t, frame), t)
    ensures !ActOf(s, t, frame).e.BadReturnRing?
  {
    ExecKeepsWf(s, t, frame);
    var k := s.threads[t].phase.k;
    OwnerHome(s, at, t, k);
    assert ValidRing(s, PoolRing(k.pool));
  }

  lemma LockingThread(s: Sys, at: map<Pkt, Place>, t: ThreadId, frame: seq<bv8>)
    requires Inv(s, at) && t in s.threads && s.threads[t].phase.PutLock?
    ensures Wf(Exec(s, t, frame)) && t in Exec(s, t, frame).threads
    ensures ThreadOk(Exec(s, t, frame), t)
  {
    hide RingOk, PlacesOk, Distinct, Contents;
    ExecKeepsWf(s, t, frame);
    assert ThreadOk(s, t);
  }

  lemma StoringThread(s: Sys, at: map<Pkt, Place>, t: ThreadId, frame: seq<bv8>)
    requires Inv(s, at) && t in s.threads && s.threads[t].phase.PutStore?
    ensures Wf(Exec(s, t, frame)) && t in Exec(s, t, frame).threads
    ensures ThreadOk(Exec(s, t, frame), t)
  {
    hide RingOk, PlacesOk, Distinct, Contents;
    ExecKeepsWf(s, t, frame);
    assert ThreadOk(s, t);
  }

  lemma BumpingThread(s: Sys, at: map<Pkt, Place>, t: ThreadId, frame: seq<bv8>)
    requires Inv(s, at) && t in s.threads && s.threads[t].phase.PutBump?
    ensures Wf(Exec(s, t, frame)) && t in Exec(s, t, frame).threads
    ensures ThreadOk(Exec(s, t, frame), t)
  {
    hide RingOk, PlacesOk, Distinct, Contents;
    ExecKeepsWf(s, t, frame);
    assert ThreadOk(s, t);
  }

  /** A buffer's pool ring is never full while the buffer is in hand, so only a worker ring refuses. */
  lemma CheckingThread(s: Sys, at: map<Pkt, Place>, t: ThreadId, frame: seq<bv8>)
    requires Inv(s, at) && t in s.threads && s.threads[t].phase.PutCheck?
    ensures Wf(Exec(s, t, frame)) && t in Exec(s, t, frame).threads
    ensures ThreadOk(Exec(s, t, frame), t)
  {
    ExecKeepsWf(s, t, frame);
    var ph := s.threads[t].phase;
    assert ThreadOk(s, t) && RingOk(s, ph.dst);
    OwnerHome(s, at, t, ph.k);
    PoolHasRoom(s, at, ph.k);
  }

  lemma UnlockingThread(s: Sys, at: map<Pkt, Place>, t: ThreadId, frame: seq<bv8>)
    requires Inv(s, at) && t in s.threads && s.threads[t].phase.PutUnlock?
    ensures Wf(Exec(s, t, frame)) && t in Exec(s, t, frame).threads
    ensures ThreadOk(Exec(s, t, frame), t)
    ensures !ActOf(s, t, frame).e.Leaked?
  {
    ExecKeepsWf(s, t, frame);
    var ph := s.threads[t].phase;
    assert ThreadOk(s, t);
    if !ph.ok { OwnerHome(s, at, t, ph.k); }
  }

  lemma StepThread(s: Sys, at: map<Pkt, Place>, t: ThreadId, frame: seq<bv8>)
    requires Inv(s, at) && t in s.threads
    ensures Wf(Exec(s, t, frame)) && t in Exec(s, t, frame).threads
    ensures ThreadOk(Exec(s, t, frame), t)
    ensures var e := ActOf(s, t, frame).e; !e.Leaked? && !e.BadReturnRing?
  {
    hide RingOk, ThreadOk, PlacesOk;
    assert Wf(s);
    match s.threads[t].phase
    case Idle => IdleThread(s, at, t, frame);
    case Holding(_) => HoldingThread(s, at, t, frame);
    case PutCheck(_, _) => CheckingThread(s, at, t, frame);
    case PutUnlock(_, _, _) => UnlockingThread(s, at, t, frame);
    case PutLock(_, _) => LockingThread(s, at, t, frame);
    case PutStore(_, _) => StoringThread(s, at, t, frame);
    case PutBump(_, _) => BumpingThread(s, at, t, frame);
    case _ => TakingThread(s, at, t, frame);
  }

  // Every other thread.
  lemma StepOthers(s: Sys, at: map<Pkt, Place>, t: ThreadId, frame: seq<bv8>, u: ThreadId)
    requires Inv(s, at) && t in s.threads && u in s.threads && u != t
    ensures Wf(Exec(s, t, frame)) && u in Exec(s, t, frame).threads
    ensures ThreadOk(Exec(s, t, frame), u)
  {
    hide ActOf, PlacesOk, Distinct, Contents;
    ExecKeepsWf(s, t, frame);
    StepQueues(s, at, t, frame, Source(u));
    StoredWasInHand(s, at, t, frame);
    if InPut(s.threads[u].phase) { OthersKeepRoom(s, at, t, frame, u); }
    assert ThreadOk(s, u) && ThreadOk(s, t);
  }

  lemma OthersKeepRoom(s: Sys, at: map<Pkt, Place>, t: ThreadId, frame: seq<bv8>, u: ThreadId)
    requires Inv(s, at) && t in s.threads && u in s.threads && u != t
    requires InPut(s.threads[u].phase)
    ensures var s' := Exec(s, t, frame);
            var dst := s.threads[u].phase.dst;
            && dst in s.rings && dst in s'.rings
            && (InLock(s.threads[u].phase) ==>
                  && s'.rings[dst].lock == s.rings[dst].lock
                  && s'.rings[dst].slots == s.rings[dst].slots && s'.rings[dst].i == s.rings[dst].i
                  && (Room(s, dst) ==> Room(s', dst)))
  {
    hide ActOf, PlacesOk, Distinct, Contents;
    TouchShape(s, t, frame);
    LockShape(s, t, frame);
    var dst := s.threads[u].phase.dst;
    assert ThreadOk(s, u) && ThreadOk(s, t) && RingOk(s, dst);
    LenAfterGetAny(s.rings[dst].i, s.rings[dst].o);
  }

  lemma LenAfterGetAny(i: nat, o: nat)
    ensures 0 < Len(i, o) ==> Len(i, (o + 1) % U32) == Len(i, o) - 1
  {
  }

  // ---- Places ----

  lemma OwnsAfter(s: Sys, at: map<Pkt, Place>, t: ThreadId, frame: seq<bv8>, k: Pkt)
    requires Inv(s, at) && t in s.threads
    ensures var a := ActOf(s, t, frame);
            Owns(a.th.phase, k) <==>
              if a.e.Took? && a.e.k == k then true
              else if a.e.Stored? && a.e.k == k then false
              else Owns(s.threads[t].phase, k)
  {
    hide ActOf, RingOk, ThreadOk, PlacesOk;
    EventShape(s, t, frame);
    OwnerShape(s, t, frame, k);
    StepThread(s, at, t, frame);
  }

  lemma HeadOrTail<T>(q: seq<T>, k: T)
    requires q != [] && Distinct(q)
    ensures k in q[1..] <==> k in q && k != q[0]
  {
  }

  lemma QueueMembers(s: Sys, at: map<Pkt, Place>, t: ThreadId, frame: seq<bv8>, id: RingId, k: Pkt)
    requires Inv(s, at) && t in s.threads && id in s.rings
    ensures var e := ActOf(s, t, frame).e;
            k in Effect(Queue(s, id), id, e) <==> k in Moved(at, t, e) && Moved(at, t, e)[k] == OnRing(id)
  {
    hide ActOf, ThreadOk, HandsMatch, HomesOk, EveryPacketPlaced, Queue;
    StoredWasInHand(s, at, t, frame);
    var e := ActOf(s, t, frame).e;
    var q := Queue(s, id);
    assert RingOk(s, id);
    assert k in q <==> k in at && at[k] == OnRing(id);
    if e.Took? && e.id == id {
      HeadOrTail(q, k);
    } else if e.Took? {
      assert at[e.k] == OnRing(e.id);
    }
  }

  /** Only a capture thread holding a buffer writes it, and writes its own ring's name into it. */
  lemma MemWrites(s: Sys, at: map<Pkt, Place>, t: ThreadId, frame: seq<bv8>)
    requires Inv(s, at) && t in s.threads
    ensures var s' := Exec(s, t, frame);
            forall k :: k in s.mem && !(k in at && at[k] == InHand(t)) ==> k in s'.mem && s'.mem[k] == s.mem[k]
    ensures var s' := Exec(s, t, frame);
            forall k :: k in s.mem ==>
              k in s'.mem && (s'.mem[k] == s.mem[k] || (t.Capture? && s'.mem[k].r == Some(PoolRing(t.p))))
    ensures ActOf(s, t, frame).e.Took? || ActOf(s, t, frame).e.Stored? ==> Exec(s, t, frame).mem == s.mem
  {
    hide ActOf, RingOk, ThreadOk, PlacesOk;
    BodyShape(s, t, frame);
    EventShape(s, t, frame);
    if s.threads[t].phase.Holding? { OwnerHome(s, at, t, s.threads[t].phase.k); }
  }

  lemma HomeWhenMoved(s: Sys, at: map<Pkt, Place>, t: ThreadId, frame: seq<bv8>)
    requires Inv(s, at) && t in s.threads
    requires var e := ActOf(s, t, frame).e; e.Took? || e.Stored?
    ensures var e := ActOf(s, t, frame).e;
            e.k in Moved(at, t, e) && HomeOk(Exec(s, t, frame), e.k, Moved(at, t, e)[e.k])
  {
    hide ActOf, QueuesMatch, HandsMatch, RingOk, Contents;
    EventShape(s, t, frame);
    StoredWasInHand(s, at, t, frame);
    MemWrites(s, at, t, frame);
    var e := ActOf(s, t, frame).e;
    assert HomeOk(s, e.k, at[e.k]) && ThreadOk(s, t);
  }

  lemma HomeInHand(s: Sys, at: map<Pkt, Place>, t: ThreadId, frame: seq<bv8>, k: Pkt)
    requires Inv(s, at) && t in s.threads && k in at && at[k] == InHand(t)
    requires Owns(ActOf(s, t, frame).th.phase, k)
    ensures HomeOk(Exec(s, t, frame), k, InHand(t))
  {
    MemWrites(s, at, t, frame);
    assert HomeOk(s, k, at[k]) && ThreadOk(s, t);
    assert Owns(s.threads[t].phase, k);
  }

  lemma StepHome(s: Sys, at: map<Pkt, Place>, t: ThreadId, frame: seq<bv8>, k: Pkt)
    requires Inv(s, at) && t in s.threads && k in at
    ensures var e := ActOf(s, t, frame).e;
            k in Moved(at, t, e) && HomeOk(Exec(s, t, frame), k, Moved(at, t, e)[k])
  {
    hide ActOf, RingOk, ThreadOk, Contents;
    var e := ActOf(s, t, frame).e;
    if (e.Took? || e.Stored?) && e.k == k {
      HomeWhenMoved(s, at, t, frame);
    } else if at[k] == InHand(t) {
      OwnsAfter(s, at, t, frame, k);
      HomeInHand(s, at, t, frame, k);
    } else {
      MemWrites(s, at, t, frame);
      assert HomeOk(s, k, at[k]);
    }
  }

  lemma StepPlaced(s: Sys, at: map<Pkt, Place>, t: ThreadId, frame: seq<bv8>)
    requires Inv(s, at) && t in s.threads
    ensures EveryPacketPlaced(Exec(s, t, frame), Moved(at, t, ActOf(s, t, frame).e))
  {
    hide ActOf, QueuesMatch, HandsMatch, HomesOk, RingOk, ThreadOk, Contents;
    StoredWasInHand(s, at, t, frame);
  }

  lemma StepQueuesMatch(s: Sys, at: map<Pkt, Place>, t: ThreadId, frame: seq<bv8>)
    requires Inv(s, at) && t in s.threads
    ensures Wf(Exec(s, t, frame))
    ensures QueuesMatch(Exec(s, t, frame), Moved(at, t, ActOf(s, t, frame).e))
  {
    hide ActOf, RingOk, ThreadOk, PlacesOk, QueueOf;
    ExecKeepsWf(s, t, frame);
    var s' := Exec(s, t, frame);
    var at' := Moved(at, t, ActOf(s, t, frame).e);
    forall id, k | id in s'.rings
      ensures k in Queue(s', id) <==> k in at' && at'[k] == OnRing(id)
    {
      StepQueues(s, at, t, frame, id);
      QueueMembers(s, at, t, frame, id, k);
    }
  }

  lemma MovedHands(s: Sys, at: map<Pkt, Place>, t: ThreadId, frame: seq<bv8>, u: ThreadId, k: Pkt)
    requires Inv(s, at) && t in s.threads
    ensures var e := ActOf(s, t, frame).e;
            (k in Moved(at, t, e) && Moved(at, t, e)[k] == InHand(u)) <==>
              if e.Took? && e.k == k then u == t
              else if e.Stored? && e.k == k then false
              else k in at && at[k] == InHand(u)
  {
    hide ActOf;
    StoredWasInHand(s, at, t, frame);
  }

  lemma StepHand(s: Sys, at: map<Pkt, Place>, t: ThreadId, frame: seq<bv8>, u: ThreadId, k: Pkt)
    requires Inv(s, at) && t in s.threads && u in s.threads
    ensures var at' := Moved(at, t, ActOf(s, t, frame).e);
            Owns(Exec(s, t, frame).threads[u].phase, k) <==> k in at' && at'[k] == InHand(u)
  {
    hide ActOf;
    StoredWasInHand(s, at, t, frame);
    MovedHands(s, at, t, frame, u, k);
    var e := ActOf(s, t, frame).e;
    assert Owns(s.threads[u].phase, k) <==> k in at && at[k] == InHand(u);
    if u == t { OwnsAfter(s, at, t, frame, k); }
  }

  lemma StepHands(s: Sys, at: map<Pkt, Place>, t: ThreadId, frame: seq<bv8>)
    requires Inv(s, at) && t in s.threads
    ensures HandsMatch(Exec(s, t, frame), Moved(at, t, ActOf(s, t, frame).e))
  {
    hide ActOf, RingOk, ThreadOk, PlacesOk;
    assert Wf(s);
    var s' := Exec(s, t, frame);
    var at' := Moved(at, t, ActOf(s, t, frame).e);
    forall u, k | u in s'.threads
      ensures Owns(s'.threads[u].phase, k) <==> k in at' && at'[k] == InHand(u)
    {
      assert u in s.threads;
      StepHand(s, at, t, frame, u, k);
    }
  }

  lemma StepHomes(s: Sys, at: map<Pkt, Place>, t: ThreadId, frame: seq<bv8>)
    requires Inv(s, at) && t in s.threads
    ensures HomesOk(Exec(s, t, frame), Moved(at, t, ActOf(s, t, frame).e))
  {
    StepPlaced(s, at, t, frame);
    var at' := Moved(at, t, ActOf(s, t, frame).e);
    forall k | k in at' ensures HomeOk(Exec(s, t, frame), k, at'[k]) {
      assert ValidPkt(s, k);
      StepHome(s, at, t, frame, k);
    }
  }

  /** The invariant holds after any access of any thread, and the access loses no buffer. */
  lemma StepKeepsInv(s: Sys, at: map<Pkt, Place>, t: ThreadId, frame: seq<bv8>)
    requires Inv(s, at) && t in s.threads
    ensures Inv(Exec(s, t, frame), Moved(at, t, ActOf(s, t, frame).e))
    ensures var e := ActOf(s, t, frame).e; !e.Leaked? && !e.BadReturnRing?
  {
    var s' := Exec(s, t, frame);
    StepPlaced(s, at, t, frame);
    StepQueuesMatch(s, at, t, frame);
    StepHands(s, at, t, frame);
    StepHomes(s, at, t, frame);
    forall id | id in s'.rings ensures RingOk(s', id) {
      assert ValidRing(s, id);
      StepRings(s, at, t, frame, id);
    }
    StepThread(s, at, t, frame);
    forall u | u in s'.threads ensures ThreadOk(s', u) {
      assert ValidThread(s, u);
      if u != t { StepOthers(s, at, t, frame, u); }
    }
  }

  // ---- Runs ----

  /** A scheduling decision: which thread goes next, and what frame it would find on the wire. */
  datatype Choice = Choice(t: ThreadId, frame: seq<bv8>)

  function RingIds(pools: nat, workers: nat): set<RingId> {
    (set p | 0 <= p < pools :: PoolRing(p)) + (set w | 0 <= w < workers :: WorkerRing(w))
  }

  function ThreadIds(pools: nat, workers: nat): set<ThreadId> {
    (set p | 0 <= p < pools :: Capture(p)) + (set w | 0 <= w < workers :: Worker(w))
  }

  /** After setup: each pool ring holds its 1024 buffers in order, worker rings are empty. */
  function InitRing(id: RingId): RingV {
    match id
    case PoolRing(p) => RingV(seq(POOL_SIZE, n requires n >= 0 => Pkt(p, n)), POOL_SIZE, 0, None)
    case WorkerRing(w) => RingV(seq(WORKER_SIZE, n => Pkt(0, 0)), 0, 0, None)
  }

  function Init(pools: nat, workers: nat): Sys {
    Sys(pools, workers,
        map id | id in RingIds(pools, workers) :: InitRing(id),
        map t | t in ThreadIds(pools, workers) :: Thread(Idle, 0, []),
        map[])
  }

  function InitQueue(id: RingId): seq<Pkt> {
    if id.PoolRing? then seq(POOL_SIZE, n requires n >= 0 => Pkt(id.p, n)) else []
  }

  /** The fill loop of libpcap_rx_loop_setup: no put fails, and the ring is the initial pool of interface p. */
  method FillPool(p: nat) returns (msgr: Ring<Pkt>)
    ensures msgr.Valid() && msgr.size == POOL_SIZE && msgr.Queue() == InitQueue(PoolRing(p))
  {
    hide IsPow2, Contents, Len;
    SizesArePow2(PoolRing(p));
    msgr := new Ring(POOL_SIZE);
    for i := 0 to POOL_SIZE
      invariant msgr.Valid() && fresh(msgr) && fresh(msgr.idx_buff) && msgr.size == POOL_SIZE
      invariant msgr.Queue() == InitQueue(PoolRing(p))[..i]
    {
      var bet := msgr.Enring(Pkt(p, i));
      assert bet;
      assert InitQueue(PoolRing(p))[..i + 1] == InitQueue(PoolRing(p))[..i] + [Pkt(p, i)];
    }
  }

  lemma InitWf(pools: nat, workers: nat)
    requires workers > 0
    ensures Wf(Init(pools, workers))
  {
    forall id: RingId ensures RingShape(id, InitRing(id)) {
      SizesArePow2(id);
    }
  }

  lemma InitQueues(pools: nat, workers: nat, id: RingId)
    requires workers > 0
    ensures var q := InitRing(id); |q.slots| > 0 && QueueOf(q) == InitQueue(id)
  {
    var q := InitRing(id);
    if id.PoolRing? {
      forall n: nat | n < POOL_SIZE ensures QueueOf(q)[n] == InitQueue(id)[n] { }
    }
  }

  lemma InitMembers(id: RingId, k: Pkt)
    ensures k in InitQueue(id) <==> id == PoolRing(k.pool) && k.n < POOL_SIZE
  {
    if id == PoolRing(k.pool) && k.n < POOL_SIZE { assert InitQueue(id)[k.n] == k; }
  }

  function InitPlaces(pools: nat): map<Pkt, Place> {
    map p, n | 0 <= p < pools && 0 <= n < POOL_SIZE :: Pkt(p, n) := OnRing(PoolRing(p))
  }

  lemma InitPlaced(pools: nat, workers: nat)
    requires workers > 0
    ensures EveryPacketPlaced(Init(pools, workers), InitPlaces(pools))
  {
    var s := Init(pools, workers);
    var at := InitPlaces(pools);
    forall k | k in at ensures at[k].OnRing? && at[k].id in s.rings {
      assert ValidRing(s, at[k].id);
    }
  }

  lemma InitRings(pools: nat, workers: nat)
    requires workers > 0 && Wf(Init(pools, workers))
    ensures var s := Init(pools, workers); forall id :: id in s.rings ==> RingOk(s, id)
  {
    hide Contents, RingShape;
    var s := Init(pools, workers);
    forall id | id in s.rings ensures RingOk(s, id) {
      InitQueues(pools, workers, id);
    }
  }

  lemma InitQueuesMatch(pools: nat, workers: nat)
    requires workers > 0 && Wf(Init(pools, workers))
    ensures QueuesMatch(Init(pools, workers), InitPlaces(pools))
  {
    hide Contents, InitQueue;
    var s := Init(pools, workers);
    var at := InitPlaces(pools);
    forall id, k | id in s.rings ensures k in Queue(s, id) <==> k in at && at[k] == OnRing(id) {
      InitQueues(pools, workers, id);
      InitMembers(id, k);
      assert ValidRing(s, id);
    }
  }

  lemma InitInv(pools: nat, workers: nat)
    requires workers > 0
    ensures Inv(Init(pools, workers), InitPlaces(pools))
  {
    hide QueuesMatch, RingOk, EveryPacketPlaced, RingShape;
    InitWf(pools, workers);
    InitPlaced(pools, workers);
    InitRings(pools, workers);
    InitQueuesMatch(pools, workers);
  }

  datatype Outcome = Outcome(s: Sys, events: seq<Event>)

  predicate Legal(pools: nat, workers: nat, sched: seq<Choice>) {
    workers > 0 && forall c :: c in sched ==> c.t in ThreadIds(pools, workers)
  }

  function Run(pools: nat, workers: nat, sched: seq<Choice>): (o: Outcome)
    requires Legal(pools, workers, sched)
    ensures Wf(o.s) && o.s.pools == pools && o.s.workers == workers
  {
    InitWf(pools, workers);
    if sched == [] then Outcome(Init(pools, workers), [])
    else
      var o := Run(pools, workers, sched[..|sched| - 1]);
      var c := sched[|sched| - 1];
      assert c in sched;
      assert ValidThread(o.s, c.t);
      ExecKeepsWf(o.s, c.t, c.frame);
      Outcome(Exec(o.s, c.t, c.frame), o.events + [ActOf(o.s, c.t, c.frame).e])
  }

  lemma {:induction false} RunInv(pools: nat, workers: nat, sched: seq<Choice>) returns (at: map<Pkt, Place>)
    requires Legal(pools, workers, sched)
    ensures Inv(Run(pools, workers, sched).s, at)
  {
    if sched == [] {
      InitInv(pools, workers);
      at := InitPlaces(pools);
    } else {
      var c := sched[|sched| - 1];
      var at0 := RunInv(pools, workers, sched[..|sched| - 1]);
      var s := Run(pools, workers, sched[..|sched| - 1]).s;
      assert c in sched && ValidThread(s, c.t);
      StepKeepsInv(s, at0, c.t, c.frame);
      at := Moved(at0, c.t, ActOf(s, c.t, c.frame).e);
    }
  }

  ghost predicate IsAt(s: Sys, k: Pkt, p: Place)
    requires Wf(s)
  {
    match p
    case OnRing(id) => id in s.rings && k in Queue(s, id)
    case InHand(t) => t in s.threads && Owns(s.threads[t].phase, k)
  }

  ghost predicate OnlyAt(s: Sys, k: Pkt, p: Place)
    requires Wf(s)
  {
    IsAt(s, k, p) && forall p' :: IsAt(s, k, p') ==> p' == p
  }

  lemma InvGivesPlace(s: Sys, at: map<Pkt, Place>, k: Pkt)
    requires Inv(s, at) && ValidPkt(s, k)
    ensures k in at && OnlyAt(s, k, at[k])
  {
  }

  /** In every reachable state each buffer is in exactly one place, and once on a ring. */
  lemma EveryBufferInOnePlace(pools: nat, workers: nat, sched: seq<Choice>, k: Pkt) returns (p: Place)
    requires Legal(pools, workers, sched)
    requires k.pool < pools && k.n < POOL_SIZE
    ensures var s := Run(pools, workers, sched).s;
            && OnlyAt(s, k, p)
            && (p.OnRing? && p.id.PoolRing? ==> p.id == PoolRing(k.pool))
            && (p.InHand? && p.t.Capture? ==> p.t.p == k.pool)
            && (forall id :: id in s.rings ==> Distinct(Queue(s, id)))
  {
    var at := RunInv(pools, workers, sched);
    var s := Run(pools, workers, sched).s;
    InvGivesPlace(s, at, k);
    p := at[k];
    forall id | id in s.rings ensures Distinct(Queue(s, id)) { assert RingOk(s, id); }
  }

  /** The branches that lose a buffer, and a bad return ring, occur in no run. */
  lemma {:induction false} NothingIsEverLost(pools: nat, workers: nat, sched: seq<Choice>, e: Event)
    requires Legal(pools, workers, sched)
    requires e in Run(pools, workers, sched).events
    ensures !e.Leaked? && !e.BadReturnRing?
  {
    var prefix := sched[..|sched| - 1];
    var c := sched[|sched| - 1];
    var o := Run(pools, workers, prefix);
    if e in o.events {
      NothingIsEverLost(pools, workers, prefix, e);
    } else {
      var at := RunInv(pools, workers, prefix);
      assert c in sched && ValidThread(o.s, c.t);
      StepKeepsInv(o.s, at, c.t, c.frame);
    }
  }

  function PutNow(e: Event, id: RingId): seq<Pkt> {
    if e.Stored? && e.id == id then [e.k] else []
  }

  function TakeNow(e: Event, id: RingId): seq<Pkt> {
    if e.Took? && e.id == id then [e.k] else []
  }

  function Puts(events: seq<Event>, id: RingId): seq<Pkt> {
    if events == [] then []
    else
      var e := events[|events| - 1];
      Puts(events[..|events| - 1], id) + PutNow(e, id)
  }

  function Takes(events: seq<Event>, id: RingId): seq<Pkt> {
    if events == [] then []
    else
      var e := events[|events| - 1];
      Takes(events[..|events| - 1], id) + TakeNow(e, id)
  }

  /** Extending a run by one access. */
  lemma LastStep(pools: nat, workers: nat, sched: seq<Choice>) returns (o: Outcome, at: map<Pkt, Place>, c: Choice,
                                                                        e: Event)
    requires Legal(pools, workers, sched) && sched != []
    ensures o == Run(pools, workers, sched[..|sched| - 1]) && c == sched[|sched| - 1]
    ensures Inv(o.s, at) && c.t in o.s.threads && e == ActOf(o.s, c.t, c.frame).e
    ensures Run(pools, workers, sched) == Outcome(Exec(o.s, c.t, c.frame), o.events + [e])
    ensures (o.events + [e])[..|o.events|] == o.events
  {
    o := Run(pools, workers, sched[..|sched| - 1]);
    at := RunInv(pools, workers, sched[..|sched| - 1]);
    c := sched[|sched| - 1];
    assert c in sched && ValidThread(o.s, c.t);
    e := ActOf(o.s, c.t, c.frame).e;
  }

  /** Every ring is first-in first-out over every run, through all index wraps. */
  lemma {:induction false} RingsAreFifo(pools: nat, workers: nat, sched: seq<Choice>, id: RingId)
    requires Legal(pools, workers, sched) && id in RingIds(pools, workers)
    ensures var o := Run(pools, workers, sched);
            id in o.s.rings && InitQueue(id) + Puts(o.events, id) == Takes(o.events, id) + Queue(o.s, id)
  {
    assert ValidRing(Run(pools, workers, sched).s, id);
    if sched == [] {
      InitQueues(pools, workers, id);
    } else {
      RingsAreFifo(pools, workers, sched[..|sched| - 1], id);
      var o, at, c, e := LastStep(pools, workers, sched);
      StepQueues(o.s, at, c.t, c.frame, id);
      StoredWasInHand(o.s, at, c.t, c.frame);
      FifoStep(InitQueue(id), o.events, e, id, Queue(o.s, id));
    }
  }

  lemma FifoStep(init: seq<Pkt>, events: seq<Event>, e: Event, id: RingId, q: seq<Pkt>)
    requires init + Puts(events, id) == Takes(events, id) + q
    requires e.Took? && e.id == id ==> q != [] && q[0] == e.k
    ensures init + Puts(events + [e], id) == Takes(events + [e], id) + Effect(q, id, e)
  {
    assert (events + [e])[..|events|] == events;
    assert q + PutNow(e, id) == TakeNow(e, id) + Effect(q, id, e);
    Reassociate(init, Puts(events, id), Takes(events, id), q, PutNow(e, id), TakeNow(e, id), Effect(q, id, e));
  }

  lemma Reassociate<T>(a: seq<T>, b: seq<T>, c: seq<T>, q: seq<T>, x: seq<T>, y: seq<T>, q': seq<T>)
    requires a + b == c + q && q + x == y + q'
    ensures a + (b + x) == (c + y) + q'
  {
    assert a + (b + x) == (a + b) + x == c + (q + x);
    assert (c + y) + q' == c + (y + q');
  }

  // ---- What the workers process ----

  function Sent(events: seq<Event>, w: nat): seq<seq<bv8>> {
    if events == [] then []
    else
      var e := events[|events| - 1];
      Sent(events[..|events| - 1], w) + SentNow(e, w)
  }

  function Done(events: seq<Event>, w: nat): seq<seq<bv8>> {
    if events == [] then []
    else
      var e := events[|events| - 1];
      Done(events[..|events| - 1], w) + DoneNow(e, w)
  }

  function Datas(s: Sys, q: seq<Pkt>): (d: seq<seq<bv8>>)
    ensures |d| == |q|
  {
    seq(|q|, j requires 0 <= j < |q| => BodyOf(s, q[j]).data)
  }

  /** Frames handed to worker w and not yet processed: the one in hand, then its ring. */
  function Waiting(s: Sys, w: nat): seq<seq<bv8>>
    requires Wf(s) && w < s.workers
  {
    assert ValidRing(s, WorkerRing(w)) && ValidThread(s, Worker(w));
    Hand(s, Worker(w)) + Datas(s, Queue(s, WorkerRing(w)))
  }

  lemma QueuedBytesStay(s: Sys, at: map<Pkt, Place>, t: ThreadId, frame: seq<bv8>, k: Pkt)
    requires Inv(s, at) && t in s.threads
    requires k in at && at[k] != InHand(t) && k in s.mem
    ensures BodyOf(Exec(s, t, frame), k) == BodyOf(s, k)
  {
    MemWrites(s, at, t, frame);
  }

  /** No access of one thread changes a buffer that another thread holds or that waits for a worker. */
  lemma ExclusiveOwnership(s: Sys, at: map<Pkt, Place>, t: ThreadId, frame: seq<bv8>, u: ThreadId, k: Pkt)
    requires Inv(s, at) && t in s.threads && u in s.threads && u != t && k in s.mem
    requires Owns(s.threads[u].phase, k) || (exists w :: WorkerRing(w) in s.rings && k in Queue(s, WorkerRing(w)))
    ensures BodyOf(Exec(s, t, frame), k) == BodyOf(s, k)
  {
    if Owns(s.threads[u].phase, k) { OwnerHome(s, at, u, k); }
    QueuedBytesStay(s, at, t, frame, k);
  }

  lemma SameDatas(s': Sys, s: Sys, q: seq<Pkt>)
    requires forall j :: 0 <= j < |q| ==> BodyOf(s', q[j]) == BodyOf(s, q[j])
    ensures Datas(s', q) == Datas(s, q)
  {
  }

  lemma DatasStay(s: Sys, at: map<Pkt, Place>, t: ThreadId, frame: seq<bv8>, w: nat, q: seq<Pkt>)
    requires Inv(s, at) && t in s.threads && WorkerRing(w) in s.rings
    requires forall k :: k in q ==> k in Queue(s, WorkerRing(w))
    ensures Datas(Exec(s, t, frame), q) == Datas(s, q)
  {
    hide Exec;
    var s' := Exec(s, t, frame);
    forall j | 0 <= j < |q| ensures BodyOf(s', q[j]) == BodyOf(s, q[j]) {
      assert q[j] in at && at[q[j]] == OnRing(WorkerRing(w));
      assert HomeOk(s, q[j], at[q[j]]);
      QueuedBytesStay(s, at, t, frame, q[j]);
    }
    SameDatas(s', s, q);
  }

  lemma HandStays(s: Sys, at: map<Pkt, Place>, t: ThreadId, frame: seq<bv8>, w: nat)
    requires Inv(s, at) && t in s.threads && Worker(w) in s.threads && t != Worker(w)
    requires s.threads[Worker(w)].phase.Holding?
    ensures var k := s.threads[Worker(w)].phase.k; BodyOf(Exec(s, t, frame), k) == BodyOf(s, k)
  {
    var k := s.threads[Worker(w)].phase.k;
    OwnerHome(s, at, Worker(w), k);
    QueuedBytesStay(s, at, t, frame, k);
  }

  function Hand(s: Sys, t: ThreadId): seq<seq<bv8>>
    requires t in s.threads
  {
    var ph := s.threads[t].phase;
    if ph.Holding? then [BodyOf(s, ph.k).data] else []
  }

  function SentNow(e: Event, w: nat): seq<seq<bv8>> {
    if e.Stored? && e.id == WorkerRing(w) then [e.data] else []
  }

  function DoneNow(e: Event, w: nat): seq<seq<bv8>> {
    if e.Processed? && e.w == w then [e.data] else []
  }

  lemma DatasGrow(s: Sys, q: seq<Pkt>, k: Pkt)
    ensures Datas(s, q + [k]) == Datas(s, q) + [BodyOf(s, k).data]
  {
  }

  lemma DatasHead(s: Sys, q: seq<Pkt>)
    requires q != []
    ensures Datas(s, q) == [BodyOf(s, q[0]).data] + Datas(s, q[1..])
  {
  }

  lemma WaitingWhileOthersMove(s: Sys, at: map<Pkt, Place>, t: ThreadId, frame: seq<bv8>, w: nat)
    requires Inv(s, at) && t in s.threads && Worker(w) in s.threads && WorkerRing(w) in s.rings && t != Worker(w)
    ensures var e := ActOf(s, t, frame).e;
            var s' := Exec(s, t, frame);
            && Worker(w) in s'.threads && Hand(s', Worker(w)) == Hand(s, Worker(w))
            && DoneNow(e, w) == []
            && Datas(s', Effect(Queue(s, WorkerRing(w)), WorkerRing(w), e))
                 == Datas(s, Queue(s, WorkerRing(w))) + SentNow(e, w)
  {
    hide ActOf, RingOk, ThreadOk, PlacesOk, Contents;
    var q := Queue(s, WorkerRing(w));
    var e := ActOf(s, t, frame).e;
    var s' := Exec(s, t, frame);
    EventShape(s, t, frame);
    DatasStay(s, at, t, frame, w, q);
    if s.threads[Worker(w)].phase.Holding? { HandStays(s, at, t, frame, w); }
    StoredWasInHand(s, at, t, frame);
    MemWrites(s, at, t, frame);
    if e.Stored? && e.id == WorkerRing(w) {
      DatasGrow(s', q, e.k);
    }
  }

  lemma WorkersOnlyRead(s: Sys, at: map<Pkt, Place>, frame: seq<bv8>, w: nat)
    requires Inv(s, at) && Worker(w) in s.threads && WorkerRing(w) in s.rings
    ensures Exec(s, Worker(w), frame).mem == s.mem
    ensures SentNow(ActOf(s, Worker(w), frame).e, w) == []
    ensures forall q :: Datas(Exec(s, Worker(w), frame), q) == Datas(s, q)
  {
    hide ActOf;
    BodyShape(s, Worker(w), frame);
    EventShape(s, Worker(w), frame);
    assert ThreadOk(s, Worker(w));
  }

  lemma WaitingWhileWorkerMoves(s: Sys, at: map<Pkt, Place>, frame: seq<bv8>, w: nat)
    requires Inv(s, at) && Worker(w) in s.threads && WorkerRing(w) in s.rings
    ensures var t := Worker(w);
            var e := ActOf(s, t, frame).e;
            var s' := Exec(s, t, frame);
            var q := Queue(s, WorkerRing(w));
            && t in s'.threads && SentNow(e, w) == []
            && Hand(s, t) + Datas(s, q) == DoneNow(e, w) + (Hand(s', t) + Datas(s', Effect(q, WorkerRing(w), e)))
  {
    hide RingOk, ThreadOk, PlacesOk, Contents;
    var t := Worker(w);
    var q := Queue(s, WorkerRing(w));
    WorkersOnlyRead(s, at, frame, w);
    if s.threads[t].phase.BumpOut? {
      EventShape(s, t, frame);
      StoredWasInHand(s, at, t, frame);
      DatasHead(s, q);
    } else if s.threads[t].phase.Holding? {
      HoldingThread(s, at, t, frame);
    } else {
      WorkerIdles(s, at, frame, w);
    }
  }

  lemma WorkerIdles(s: Sys, at: map<Pkt, Place>, frame: seq<bv8>, w: nat)
    requires Inv(s, at) && Worker(w) in s.threads && WorkerRing(w) in s.rings
    requires var ph := s.threads[Worker(w)].phase; !ph.BumpOut? && !ph.Holding?
    ensures var t := Worker(w);
            var e := ActOf(s, t, frame).e;
            && t in Exec(s, t, frame).threads
            && Hand(s, t) == [] == Hand(Exec(s, t, frame), t) && DoneNow(e, w) == []
            && Effect(Queue(s, WorkerRing(w)), WorkerRing(w), e) == Queue(s, WorkerRing(w))
  {
    hide RingOk, PlacesOk, Contents;
    EventShape(s, Worker(w), frame);
    assert ThreadOk(s, Worker(w));
  }

  lemma WaitingStep(s: Sys, at: map<Pkt, Place>, t: ThreadId, frame: seq<bv8>, w: nat)
    requires Inv(s, at) && t in s.threads && w < s.workers
    ensures Wf(Exec(s, t, frame)) && Exec(s, t, frame).workers == s.workers
    ensures var e := ActOf(s, t, frame).e;
            Waiting(s, w) + SentNow(e, w) == DoneNow(e, w) + Waiting(Exec(s, t, frame), w)
  {
    hide ActOf, RingOk, ThreadOk, PlacesOk, Contents, Datas, Hand;
    var id := WorkerRing(w);
    assert ValidRing(s, id) && ValidThread(s, Worker(w));
    StepQueues(s, at, t, frame, id);
    if t == Worker(w) {
      WaitingWhileWorkerMoves(s, at, frame, w);
    } else {
      WaitingWhileOthersMove(s, at, t, frame, w);
      Associates(Hand(s, Worker(w)), Datas(s, Queue(s, id)), SentNow(ActOf(s, t, frame).e, w));
    }
  }

  lemma SentAndDoneSnoc(events: seq<Event>, e: Event, w: nat)
    ensures Sent(events + [e], w) == Sent(events, w) + SentNow(e, w)
    ensures Done(events + [e], w) == Done(events, w) + DoneNow(e, w)
  {
    assert (events + [e])[..|events|] == events;
  }

  lemma WaitingSplit(events: seq<Event>, e: Event, w: nat, before: seq<seq<bv8>>, after: seq<seq<bv8>>)
    requires Sent(events, w) == Done(events, w) + before
    requires before + SentNow(e, w) == DoneNow(e, w) + after
    ensures Sent(events + [e], w) == Done(events + [e], w) + after
  {
    hide Sent, Done;
    SentAndDoneSnoc(events, e, w);
    Reassociate([], Sent(events, w), Done(events, w), before, SentNow(e, w), DoneNow(e, w), after);
  }

  /** Each worker processes exactly the frames sent to it, in order, bytes unchanged. */
  lemma {:induction false} FramesArriveIntact(pools: nat, workers: nat, sched: seq<Choice>, w: nat)
    requires Legal(pools, workers, sched) && w < workers
    ensures var o := Run(pools, workers, sched);
            Sent(o.events, w) == Done(o.events, w) + Waiting(o.s, w)
  {
    if sched == [] {
      InitQueues(pools, workers, WorkerRing(w));
      assert ValidRing(Run(pools, workers, sched).s, WorkerRing(w));
    } else {
      FramesArriveIntact(pools, workers, sched[..|sched| - 1], w);
      var o, at, c, e := LastStep(pools, workers, sched);
      WaitingStep(o.s, at, c.t, c.frame, w);
      WaitingSplit(o.events, e, w, Waiting(o.s, w), Waiting(Exec(o.s, c.t, c.frame), w));
    }
  }
}
