/** What becomes of the frames on the wire: what a schedule offers an interface against what its capture thread
    puts on the workers' rings, and what the workers process. */
module PacketDelivery {
  import MqRing
  import opened PacketPath
  import opened PacketSafety
  import opened Sequences
  import opened Wrappers

  /** A frame and the worker it is meant for. */
  datatype Parcel = Parcel(w: nat, data: seq<bv8>)

  // ---- What the schedule offers ----

  /** The handler of interface p is called with a frame of a length it lets through. */
  predicate Called(s: Sys, c: Choice, p: nat) {
    c.t == Capture(p) && c.t in s.threads && s.threads[c.t].phase.Idle? && 10 <= |c.frame| <= 2000
  }

  /** How many frames the handler of interface p has let through. */
  function Calls(pools: nat, workers: nat, sched: seq<Choice>, p: nat): nat
    requires Legal(pools, workers, sched)
  {
    if sched == [] then 0
    else
      var before, c := sched[..|sched| - 1], sched[|sched| - 1];
      Calls(pools, workers, before, p) + if Called(Run(pools, workers, before).s, c, p) then 1 else 0
  }

  /** The handler is called while its pool has a packet left. */
  predicate Caught(s: Sys, c: Choice, p: nat)
    requires Wf(s) && PoolRing(p) in s.rings
  {
    Called(s, c, p) && Queue(s, PoolRing(p)) != []
  }

  lemma PoolExists(s: Sys, p: nat)
    requires Wf(s) && p < s.pools
    ensures PoolRing(p) in s.rings && Capture(p) in s.threads
  {
    assert ValidRing(s, PoolRing(p)) && ValidThread(s, Capture(p));
  }

  /** Frame k, counted from 1, is for worker k modulo the number of workers. The frames caught, in order. */
  function Offered(pools: nat, workers: nat, sched: seq<Choice>, p: nat): seq<Parcel>
    requires Legal(pools, workers, sched) && p < pools
  {
    if sched == [] then []
    else
      var before, c := sched[..|sched| - 1], sched[|sched| - 1];
      var s := Run(pools, workers, before).s;
      PoolExists(s, p);
      Offered(pools, workers, before, p)
      + if Caught(s, c, p) then [Parcel((Calls(pools, workers, before, p) + 1) % workers, c.frame)] else []
  }

  // ---- What the capture thread does with it ----

  /** A frame put on a worker's ring or refused by it. */
  function SettledNow(t: ThreadId, e: Event, p: nat): seq<Parcel> {
    if t != Capture(p) then []
    else if e.Stored? && e.id.WorkerRing? then [Parcel(e.id.w, e.data)]
    else if e.WorkerFull? then [Parcel(e.w, e.data)]
    else []
  }

  function Settled(pools: nat, workers: nat, sched: seq<Choice>, p: nat): seq<Parcel>
    requires Legal(pools, workers, sched)
  {
    if sched == [] then []
    else
      var before, c := sched[..|sched| - 1], sched[|sched| - 1];
      var s := Run(pools, workers, before).s;
      assert c in sched && ValidThread(s, c.t);
      Settled(pools, workers, before, p) + SettledNow(c.t, ActOf(s, c.t, c.frame).e, p)
  }

  /** The frame that the capture thread is busy with. */
  function Carried(s: Sys, p: nat): seq<Parcel>
    requires Capture(p) in s.threads
  {
    var th := s.threads[Capture(p)];
    var ph := th.phase;
    if ph.ReadSlot? || ph.BumpOut? || ph.Holding? then [Parcel(th.last, th.frame)]
    else if InPut(ph) && ph.dst.WorkerRing? && !(ph.PutUnlock? && ph.ok) then [Parcel(ph.dst.w, BodyOf(s, ph.k).data)]
    else []
  }

  /** What the choice adds to the frames caught. */
  function OfferedNow(s: Sys, c: Choice, p: nat): seq<Parcel>
    requires Wf(s) && PoolRing(p) in s.rings && Capture(p) in s.threads
  {
    if Caught(s, c, p) then [Parcel((s.threads[Capture(p)].last + 1) % s.workers, c.frame)] else []
  }

  lemma RingEmptyIff(s: Sys, id: RingId)
    requires Wf(s) && id in s.rings
    ensures Queue(s, id) == [] <==> s.rings[id].i == s.rings[id].o
  {
    assert RingShape(id, s.rings[id]);
    MqRing.LenIsZero(s.rings[id].i, s.rings[id].o);
  }

  /** From the wire into the hands of the capture thread. */
  lemma CarriedAtCall(s: Sys, frame: seq<bv8>, p: nat)
    requires Wf(s) && Capture(p) in s.threads && PoolRing(p) in s.rings && s.threads[Capture(p)].phase.Idle?
    ensures var s' := Exec(s, Capture(p), frame);
            && Capture(p) in s'.threads && Carried(s, p) == []
            && SettledNow(Capture(p), ActOf(s, Capture(p), frame).e, p) == []
            && Carried(s', p) == OfferedNow(s, Choice(Capture(p), frame), p)
  {
    hide MqRing.Contents;
    RingEmptyIff(s, PoolRing(p));
  }

  /** What thread p carried before the access is what the access settles and what it carries afterwards. */
  ghost predicate StillCarried(s: Sys, frame: seq<bv8>, p: nat)
    requires Wf(s) && Capture(p) in s.threads
  {
    var s' := Exec(s, Capture(p), frame);
    && Capture(p) in s'.threads
    && Carried(s, p) == SettledNow(Capture(p), ActOf(s, Capture(p), frame).e, p) + Carried(s', p)
  }

  /** From there into the packet. */
  lemma CarriedToPacket(s: Sys, frame: seq<bv8>, p: nat)
    requires Wf(s) && Capture(p) in s.threads
    requires var ph := s.threads[Capture(p)].phase; ph.ReadSlot? || ph.BumpOut? || ph.Holding?
    ensures StillCarried(s, frame, p)
  {
    hide MqRing.Contents;
  }

  /** And in the packet to a worker's ring. */
  lemma CarriedToRing(s: Sys, frame: seq<bv8>, p: nat)
    requires Wf(s) && Capture(p) in s.threads && InLock(s.threads[Capture(p)].phase)
    ensures StillCarried(s, frame, p)
  {
    hide MqRing.Contents;
  }

  lemma CarriedAtLock(s: Sys, frame: seq<bv8>, p: nat)
    requires Wf(s) && Capture(p) in s.threads && s.threads[Capture(p)].phase.PutLock?
    ensures StillCarried(s, frame, p)
  {
    hide MqRing.Contents;
  }

  lemma CarriedAfterCall(s: Sys, frame: seq<bv8>, p: nat)
    requires Wf(s) && Capture(p) in s.threads && PoolRing(p) in s.rings && !s.threads[Capture(p)].phase.Idle?
    ensures StillCarried(s, frame, p) && OfferedNow(s, Choice(Capture(p), frame), p) == []
  {
    hide MqRing.Contents, ActOf, StillCarried;
    var ph := s.threads[Capture(p)].phase;
    if InLock(ph) {
      CarriedToRing(s, frame, p);
    } else if ph.PutLock? {
      CarriedAtLock(s, frame, p);
    } else {
      CarriedToPacket(s, frame, p);
    }
  }

  lemma CarriedByItself(s: Sys, frame: seq<bv8>, p: nat)
    requires Wf(s) && Capture(p) in s.threads && PoolRing(p) in s.rings
    ensures var s' := Exec(s, Capture(p), frame);
            Capture(p) in s'.threads
            && Carried(s, p) + OfferedNow(s, Choice(Capture(p), frame), p)
               == SettledNow(Capture(p), ActOf(s, Capture(p), frame).e, p) + Carried(s', p)
  {
    hide Exec, ActOf, Carried, SettledNow, OfferedNow;
    if s.threads[Capture(p)].phase.Idle? {
      CarriedAtCall(s, frame, p);
    } else {
      CarriedAfterCall(s, frame, p);
    }
  }

  lemma CarriedMeanwhile(s: Sys, at: map<Pkt, Place>, t: ThreadId, frame: seq<bv8>, p: nat)
    requires Inv(s, at) && t in s.threads && Capture(p) in s.threads && t != Capture(p)
    ensures var s' := Exec(s, t, frame); Capture(p) in s'.threads && Carried(s', p) == Carried(s, p)
  {
    hide ActOf, RingOk, ThreadOk, PlacesOk, BodyOf;
    var ph := s.threads[Capture(p)].phase;
    if Carried(s, p) != [] && InPut(ph) {
      BodyWritten(s, at, Capture(p));
      QueuedBytesStay(s, at, t, frame, ph.k);
    }
  }

  /** A packet on its way to a ring has been filled. */
  lemma BodyWritten(s: Sys, at: map<Pkt, Place>, t: ThreadId)
    requires Inv(s, at) && t in s.threads && InPut(s.threads[t].phase)
    requires Owns(s.threads[t].phase, s.threads[t].phase.k)
    ensures var k := s.threads[t].phase.k; k in s.mem && k in at && at[k] == InHand(t)
  {
    OwnerHome(s, at, t, s.threads[t].phase.k);
  }

  lemma CarriedStep(s: Sys, at: map<Pkt, Place>, c: Choice, p: nat)
    requires Inv(s, at) && c.t in s.threads && Capture(p) in s.threads && PoolRing(p) in s.rings
    ensures var s' := Exec(s, c.t, c.frame);
            Capture(p) in s'.threads
            && Carried(s, p) + OfferedNow(s, c, p) == SettledNow(c.t, ActOf(s, c.t, c.frame).e, p) + Carried(s', p)
  {
    hide ActOf, Inv, Carried, Exec;
    InvIsWf(s, at);
    if c.t == Capture(p) {
      CarriedByItself(s, c.frame, p);
    } else {
      CarriedMeanwhile(s, at, c.t, c.frame, p);
    }
  }

  lemma CallsSnoc(pools: nat, workers: nat, sched: seq<Choice>, p: nat)
    requires Legal(pools, workers, sched) && sched != []
    ensures var before, c := sched[..|sched| - 1], sched[|sched| - 1];
            Calls(pools, workers, sched, p)
            == Calls(pools, workers, before, p) + if Called(Run(pools, workers, before).s, c, p) then 1 else 0
  {
    hide Run, Called;
  }

  lemma AtFirst(pools: nat, workers: nat, p: nat)
    requires workers > 0 && p < pools
    ensures var s := Run(pools, workers, []).s;
            && Capture(p) in s.threads && s.threads[Capture(p)].last == 0 && Carried(s, p) == []
            && Calls(pools, workers, [], p) == 0
  {
    PoolExists(Run(pools, workers, []).s, p);
  }

  /** last_thread counts the frames let through, modulo the number of workers. */
  lemma {:induction false} TurnIsCount(pools: nat, workers: nat, sched: seq<Choice>, p: nat)
    requires Legal(pools, workers, sched) && p < pools
    ensures var s := Run(pools, workers, sched).s;
            Capture(p) in s.threads && s.threads[Capture(p)].last == Calls(pools, workers, sched, p) % workers
  {
    hide Run, Calls, Called, Inv, Exec, ActOf;
    if sched == [] {
      AtFirst(pools, workers, p);
    } else {
      TurnIsCount(pools, workers, sched[..|sched| - 1], p);
      CallsSnoc(pools, workers, sched, p);
      var o, at, c, e := LastStep(pools, workers, sched);
      InvIsWf(o.s, at);
      TurnStep(o.s, c, p);
      MqRing.ModAdd(Calls(pools, workers, sched[..|sched| - 1], p), 1, workers);
    }
  }

  lemma InvIsWf(s: Sys, at: map<Pkt, Place>)
    requires Inv(s, at)
    ensures Wf(s)
  {
  }

  lemma TurnStep(s: Sys, c: Choice, p: nat)
    requires Wf(s) && c.t in s.threads && Capture(p) in s.threads
    ensures var last, s' := s.threads[Capture(p)].last, Exec(s, c.t, c.frame);
            Capture(p) in s'.threads
            && s'.threads[Capture(p)].last == if Called(s, c, p) then (last + 1) % s.workers else last
  {
  }

  /** The frames that an interface catches, in order and with the workers picked in turn, are those put on a
      worker's ring or refused by it, followed by at most one that is under way. */
  lemma {:induction false} FramesAreForwarded(pools: nat, workers: nat, sched: seq<Choice>, p: nat)
    requires Legal(pools, workers, sched) && p < pools
    ensures var s := Run(pools, workers, sched).s;
            Capture(p) in s.threads && |Carried(s, p)| <= 1
            && Offered(pools, workers, sched, p) == Settled(pools, workers, sched, p) + Carried(s, p)
  {
    hide Run, Offered, Settled, Carried, Inv, Exec, ActOf, SettledNow;
    if sched == [] {
      AtFirst(pools, workers, p);
      NothingYet(pools, workers, p);
    } else {
      var before := sched[..|sched| - 1];
      FramesAreForwarded(pools, workers, before, p);
      var o, at, c, e := LastStep(pools, workers, sched);
      InvIsWf(o.s, at);
      PoolExists(o.s, p);
      OfferedSnoc(pools, workers, sched, p);
      SettledSnoc(pools, workers, sched, p);
      CarriedStep(o.s, at, c, p);
      AtMostOne(Exec(o.s, c.t, c.frame), p);
      Reassociate([], Offered(pools, workers, before, p), Settled(pools, workers, before, p), Carried(o.s, p),
                  OfferedNow(o.s, c, p), SettledNow(c.t, e, p), Carried(Exec(o.s, c.t, c.frame), p));
    }
  }

  lemma NothingYet(pools: nat, workers: nat, p: nat)
    requires workers > 0 && p < pools
    ensures Offered(pools, workers, [], p) == [] == Settled(pools, workers, [], p)
  {
  }

  lemma AtMostOne(s: Sys, p: nat)
    requires Capture(p) in s.threads
    ensures |Carried(s, p)| <= 1
  {
  }

  lemma OfferedSnoc(pools: nat, workers: nat, sched: seq<Choice>, p: nat)
    requires Legal(pools, workers, sched) && p < pools && sched != []
    ensures var before, c := sched[..|sched| - 1], sched[|sched| - 1];
            var s := Run(pools, workers, before).s;
            && PoolRing(p) in s.rings && Capture(p) in s.threads
            && Offered(pools, workers, sched, p) == Offered(pools, workers, before, p) + OfferedNow(s, c, p)
  {
    hide Run, Caught;
    var before := sched[..|sched| - 1];
    PoolExists(Run(pools, workers, before).s, p);
    TurnIsCount(pools, workers, before, p);
    MqRing.ModAdd(Calls(pools, workers, before, p), 1, workers);
  }

  lemma SettledSnoc(pools: nat, workers: nat, sched: seq<Choice>, p: nat)
    requires Legal(pools, workers, sched) && sched != []
    ensures var before, c := sched[..|sched| - 1], sched[|sched| - 1];
            var s := Run(pools, workers, before).s;
            c.t in s.threads
            && Settled(pools, workers, sched, p)
               == Settled(pools, workers, before, p) + SettledNow(c.t, ActOf(s, c.t, c.frame).e, p)
  {
    hide Run, SettledNow;
  }

  // ---- What the workers process was on the wire ----

  /** A frame caught was on the wire when the handler was called. */
  lemma {:induction false} CaughtFromWire(pools: nat, workers: nat, sched: seq<Choice>, p: nat, x: Parcel)
    returns (j: nat)
    requires Legal(pools, workers, sched) && p < pools && x in Offered(pools, workers, sched, p)
    ensures j < |sched| && FromWire(pools, workers, sched, p, x, j)
  {
    hide Run, Offered, Caught, Calls;
    if sched == [] {
      NothingYet(pools, workers, p);
      assert false;
    } else {
      var before := sched[..|sched| - 1];
      PoolExists(Run(pools, workers, before).s, p);
      TurnIsCount(pools, workers, before, p);
      MqRing.ModAdd(Calls(pools, workers, before, p), 1, workers);
      OfferedSnoc(pools, workers, sched, p);
      if x in Offered(pools, workers, before, p) {
        j := CaughtFromWire(pools, workers, before, p, x);
        assert before[..j] == sched[..j];
      } else {
        j := |sched| - 1;
      }
    }
  }

  /** Choice j called the handler of interface p with this frame while the pool had a packet left, and it is the
      turn of this worker. */
  ghost predicate FromWire(pools: nat, workers: nat, sched: seq<Choice>, p: nat, x: Parcel, j: nat)
    requires Legal(pools, workers, sched) && p < pools && j < |sched|
  {
    var s := Run(pools, workers, sched[..j]).s;
    PoolExists(s, p);
    && Caught(s, sched[j], p) && sched[j].frame == x.data
    && x.w == (Calls(pools, workers, sched[..j], p) + 1) % workers
  }

  /** Only capture threads put packets on the workers' rings. */
  lemma {:induction false} SentIsSettled(pools: nat, workers: nat, sched: seq<Choice>, w: nat, d: seq<bv8>)
    returns (p: nat)
    requires Legal(pools, workers, sched) && d in Sent(Run(pools, workers, sched).events, w)
    ensures p < pools && Parcel(w, d) in Settled(pools, workers, sched, p)
  {
    hide Run, Settled, Sent, Inv, Exec, ActOf;
    if sched == [] {
      NothingSent(pools, workers, w);
      assert false;
    } else {
      var o, at, c, e := LastStep(pools, workers, sched);
      SentAndDoneSnoc(o.events, e, w);
      SentByCapture(o.s, at, c);
      if d in Sent(o.events, w) {
        p := SentIsSettled(pools, workers, sched[..|sched| - 1], w, d);
      } else {
        p := c.t.p;
      }
      SettledSnoc(pools, workers, sched, p);
    }
  }

  lemma NothingSent(pools: nat, workers: nat, w: nat)
    requires workers > 0
    ensures Sent(Run(pools, workers, []).events, w) == []
  {
  }

  lemma SentByCapture(s: Sys, at: map<Pkt, Place>, c: Choice)
    requires Inv(s, at) && c.t in s.threads
    ensures Wf(s)
    ensures var e := ActOf(s, c.t, c.frame).e; e.Stored? && e.id.WorkerRing? ==> c.t.Capture? && c.t.p < s.pools
  {
    hide ActOf, RingOk, PlacesOk, MqRing.Contents;
    EventShape(s, c.t, c.frame);
    assert ThreadOk(s, c.t) && ValidThread(s, c.t);
  }

  lemma {:induction false} ProcessedIsDone(pools: nat, workers: nat, sched: seq<Choice>, e: Event)
    requires Legal(pools, workers, sched) && e in Run(pools, workers, sched).events && e.Processed?
    ensures e.w < workers && e.data in Done(Run(pools, workers, sched).events, e.w)
  {
    hide Inv, Exec, ActOf, Done;
    var o, at, c, last := LastStep(pools, workers, sched);
    SentAndDoneSnoc(o.events, last, e.w);
    if e in o.events {
      ProcessedIsDone(pools, workers, sched[..|sched| - 1], e);
    } else {
      ProcessedByWorker(o.s, at, c);
    }
  }

  lemma ProcessedByWorker(s: Sys, at: map<Pkt, Place>, c: Choice)
    requires Inv(s, at) && c.t in s.threads
    ensures Wf(s)
    ensures var e := ActOf(s, c.t, c.frame).e; e.Processed? ==> e.w < s.workers
  {
    hide ActOf;
    EventShape(s, c.t, c.frame);
    assert ValidThread(s, c.t);
  }

  /** Whatever a worker processes is, octet for octet, a frame with which some interface's handler was called when
      it was that worker's turn. */
  lemma ProcessedWasOnTheWire(pools: nat, workers: nat, sched: seq<Choice>, w: nat, data: seq<bv8>)
    returns (p: nat, j: nat)
    requires Legal(pools, workers, sched) && Processed(w, data) in Run(pools, workers, sched).events
    ensures p < pools && j < |sched| && FromWire(pools, workers, sched, p, Parcel(w, data), j)
  {
    hide Run, Done, Sent, Waiting, Offered, Settled, Carried, FromWire;
    ProcessedIsDone(pools, workers, sched, Processed(w, data));
    FramesArriveIntact(pools, workers, sched, w);
    p := SentIsSettled(pools, workers, sched, w, data);
    FramesAreForwarded(pools, workers, sched, p);
    j := CaughtFromWire(pools, workers, sched, p, Parcel(w, data));
  }

  // ---- When a frame is not taken ----

  /** A call of the handler is counted as failed exactly when its pool is empty. */
  lemma PoolEmptyReported(s: Sys, c: Choice, p: nat)
    requires Wf(s) && c.t in s.threads && PoolRing(p) in s.rings
    ensures ActOf(s, c.t, c.frame).e == PoolEmpty(p) <==> Called(s, c, p) && Queue(s, PoolRing(p)) == []
  {
    hide MqRing.Contents;
    RingEmptyIff(s, PoolRing(p));
  }

  /** And a worker's look at its ring exactly when that is empty. */
  lemma WorkerEmptyReported(s: Sys, c: Choice, w: nat)
    requires Wf(s) && c.t in s.threads && WorkerRing(w) in s.rings
    ensures ActOf(s, c.t, c.frame).e == WorkerEmpty(w)
            <==> c.t == Worker(w) && s.threads[c.t].phase.Idle? && Queue(s, WorkerRing(w)) == []
  {
    hide MqRing.Contents;
    RingEmptyIff(s, WorkerRing(w));
  }

  lemma FullIff(s: Sys, id: RingId)
    requires Wf(s) && id in s.rings
    ensures Full(s.rings[id]) <==> |Queue(s, id)| == Cap(id)
  {
    hide MqRing.Contents;
    assert RingShape(id, s.rings[id]);
  }

  /** The test of a ring refuses the packet exactly when as many are queued as the ring has slots. */
  lemma CheckDecides(s: Sys, at: map<Pkt, Place>, t: ThreadId, frame: seq<bv8>)
    requires Inv(s, at) && t in s.threads && s.threads[t].phase.PutCheck?
    ensures var ph, s' := s.threads[t].phase, Exec(s, t, frame);
            && ph.dst in s.rings && t in s'.threads
            && s'.threads[t].phase == if |Queue(s, ph.dst)| == Cap(ph.dst) then PutUnlock(ph.k, ph.dst, false)
                                      else PutStore(ph.k, ph.dst)
  {
    hide RingOk, ThreadOk, PlacesOk, MqRing.Contents;
    FullIff(s, s.threads[t].phase.dst);
  }

  /** The last access of thread t was its test of the ring dst, which was full. */
  ghost predicate TestedFull(pools: nat, workers: nat, sched: seq<Choice>, t: ThreadId, k: Pkt, dst: RingId, j: nat)
    requires Legal(pools, workers, sched) && j < |sched|
  {
    var s := Run(pools, workers, sched[..j]).s;
    && sched[j].t == t && t in s.threads && s.threads[t].phase == PutCheck(k, dst)
    && dst in s.rings && |Queue(s, dst)| == Cap(dst)
    && forall n :: j < n < |sched| ==> sched[n].t != t
  }

  lemma {:induction false} RefusedAfterTest(pools: nat, workers: nat, sched: seq<Choice>, t: ThreadId) returns (j: nat)
    requires Legal(pools, workers, sched)
    requires var s := Run(pools, workers, sched).s;
             t in s.threads && s.threads[t].phase.PutUnlock? && !s.threads[t].phase.ok
    ensures var ph := Run(pools, workers, sched).s.threads[t].phase;
            j < |sched| && TestedFull(pools, workers, sched, t, ph.k, ph.dst, j)
  {
    hide Run, Inv, Exec, ActOf, TestedFull;
    if sched == [] {
      AllIdle(pools, workers, t);
      assert false;
    } else {
      var before := sched[..|sched| - 1];
      var o, at, c, e := LastStep(pools, workers, sched);
      OnlyTestRefuses(o.s, at, c, t);
      if c.t == t {
        j := |sched| - 1;
        TestedNow(pools, workers, sched, Run(pools, workers, sched).s.threads[t].phase);
      } else {
        j := RefusedAfterTest(pools, workers, before, t);
        TestedBefore(pools, workers, sched, t, o.s.threads[t].phase.k, o.s.threads[t].phase.dst, j);
      }
    }
  }

  lemma TestedNow(pools: nat, workers: nat, sched: seq<Choice>, ph: Phase)
    requires Legal(pools, workers, sched) && sched != [] && ph.PutUnlock?
    requires var s, t := Run(pools, workers, sched[..|sched| - 1]).s, sched[|sched| - 1].t;
             && t in s.threads && s.threads[t].phase == PutCheck(ph.k, ph.dst)
             && ph.dst in s.rings && |Queue(s, ph.dst)| == Cap(ph.dst)
    ensures TestedFull(pools, workers, sched, sched[|sched| - 1].t, ph.k, ph.dst, |sched| - 1)
  {
    hide Run, MqRing.Contents;
  }

  lemma TestedBefore(pools: nat, workers: nat, sched: seq<Choice>, t: ThreadId, k: Pkt, dst: RingId, j: nat)
    requires Legal(pools, workers, sched) && j < |sched| - 1 && sched[|sched| - 1].t != t
    requires TestedFull(pools, workers, sched[..|sched| - 1], t, k, dst, j)
    ensures TestedFull(pools, workers, sched, t, k, dst, j)
  {
    hide Run, MqRing.Contents;
    assert sched[..|sched| - 1][..j] == sched[..j];
    forall n | j < n < |sched| ensures sched[n].t != t {
      assert n < |sched| - 1 ==> sched[n] == sched[..|sched| - 1][n];
    }
  }

  lemma AllIdle(pools: nat, workers: nat, t: ThreadId)
    requires workers > 0
    ensures var s := Run(pools, workers, []).s; t in s.threads ==> s.threads[t].phase.Idle?
  {
  }

  lemma OnlyTestRefuses(s: Sys, at: map<Pkt, Place>, c: Choice, t: ThreadId)
    requires Inv(s, at) && c.t in s.threads
    ensures Wf(s)
    ensures var s' := Exec(s, c.t, c.frame);
            t in s'.threads && s'.threads[t].phase.PutUnlock? && !s'.threads[t].phase.ok ==>
              && t in s.threads
              && (c.t != t ==> s.threads[t] == s'.threads[t])
              && (c.t == t ==>
                    var ph := s'.threads[t].phase;
                    && s.threads[t].phase == PutCheck(ph.k, ph.dst)
                    && ph.dst in s.rings && |Queue(s, ph.dst)| == Cap(ph.dst))
  {
    hide RingOk, ThreadOk, PlacesOk, MqRing.Contents;
    if c.t == t && s.threads[t].phase.PutCheck? {
      CheckDecides(s, at, t, c.frame);
    }
  }

  /** A run that ends with a frame refused by worker w: the capture thread's access before this one found the 128
      slots of that worker's ring taken. */
  lemma WorkerFullMeansFull(pools: nat, workers: nat, sched: seq<Choice>, p: nat, w: nat, data: seq<bv8>)
    returns (k: Pkt, j: nat)
    requires Legal(pools, workers, sched) && sched != []
    requires var o := Run(pools, workers, sched); o.events != [] && o.events[|o.events| - 1] == WorkerFull(p, w, data)
    ensures sched[|sched| - 1].t == Capture(p)
    ensures var before := sched[..|sched| - 1];
            j < |before| && TestedFull(pools, workers, before, Capture(p), k, WorkerRing(w), j)
    ensures Cap(WorkerRing(w)) == 128
  {
    hide Run, Inv, Exec, ActOf, TestedFull;
    var o, at, c, e := LastStep(pools, workers, sched);
    FullFromUnlock(o.s, at, c);
    k := o.s.threads[c.t].phase.k;
    j := RefusedAfterTest(pools, workers, sched[..|sched| - 1], c.t);
  }

  lemma FullFromUnlock(s: Sys, at: map<Pkt, Place>, c: Choice)
    requires Inv(s, at) && c.t in s.threads
    ensures Wf(s)
    ensures var e, ph := ActOf(s, c.t, c.frame).e, s.threads[c.t].phase;
            e.WorkerFull? ==> c.t == Capture(e.p) && ph.PutUnlock? && !ph.ok && ph.dst == WorkerRing(e.w)
  {
    hide RingOk, ThreadOk, PlacesOk, MqRing.Contents;
  }

  // ---- A thread left alone finishes ----

  /** An upper bound on the accesses a thread still needs to be idle again. */
  function Left(ph: Phase): nat {
    match ph
    case Idle => 0
    case ReadSlot => 11
    case BumpOut(_) => 10
    case Holding(_) => 9
    case PutLock(_, dst) => if dst.WorkerRing? then 8 else 5
    case PutCheck(_, dst) => if dst.WorkerRing? then 7 else 4
    case PutStore(_, _) => 3
    case PutBump(_, _) => 2
    case PutUnlock(_, _, ok) => if ok then 1 else 6
  }

  /** No other thread holds a lock. */
  ghost predicate LocksFree(s: Sys, t: ThreadId) {
    forall id :: id in s.rings && s.rings[id].lock.Some? ==> s.rings[id].lock == Some(t)
  }

  /** The lock a thread is about to take is not its own. */
  lemma LockIsFree(s: Sys, at: map<Pkt, Place>, t: ThreadId)
    requires Inv(s, at) && t in s.threads && LocksFree(s, t) && s.threads[t].phase.PutLock?
    ensures s.threads[t].phase.dst in s.rings && s.rings[s.threads[t].phase.dst].lock.None?
  {
    hide PlacesOk, ThreadOk, MqRing.Contents;
    assert RingOk(s, s.threads[t].phase.dst);
  }

  /** What keeps a thread from going back: locks of others, a full pool ring, a packet without a pool. */
  ghost predicate Unhindered(s: Sys, t: ThreadId)
    requires Wf(s) && t in s.threads
  {
    var ph := s.threads[t].phase;
    && !ph.Idle?
    && (ph.PutLock? ==> s.rings[ph.dst].lock.None?)
    && (ph.PutCheck? && ph.dst.PoolRing? ==> !Full(s.rings[ph.dst]))
    && (ph.PutUnlock? && !ph.ok ==> t.Capture? && ph.dst.WorkerRing?)
    && (ph.Holding? && t.Worker? ==> BodyOf(s, ph.k).r == Some(PoolRing(ph.k.pool)) && PoolRing(ph.k.pool) in s.rings)
  }

  lemma LeftDecreases(s: Sys, t: ThreadId)
    requires Wf(s) && t in s.threads && Unhindered(s, t)
    ensures Left(ActOf(s, t, []).th.phase) < Left(s.threads[t].phase)
  {
  }

  lemma InvUnhinders(s: Sys, at: map<Pkt, Place>, t: ThreadId)
    requires Inv(s, at) && t in s.threads && LocksFree(s, t) && !s.threads[t].phase.Idle?
    ensures Unhindered(s, t)
  {
    hide RingOk, MqRing.Contents, LocksFree;
    var ph := s.threads[t].phase;
    assert ThreadOk(s, t);
    if ph.PutLock? {
      LockIsFree(s, at, t);
    } else if ph.PutCheck? && ph.dst.PoolRing? {
      PoolAccepts(s, at, t);
      FullIff(s, ph.dst);
    } else if ph.Holding? && t.Worker? {
      OwnerHome(s, at, t, ph.k);
      assert ValidRing(s, PoolRing(ph.k.pool));
    }
  }

  lemma OthersLocksStayFree(s: Sys, t: ThreadId)
    requires Wf(s) && t in s.threads && LocksFree(s, t)
    ensures LocksFree(Exec(s, t, []), t)
  {
    hide ActOf;
    LockShape(s, t, []);
    TouchIsWf(s, t, []);
  }

  /** Each of its accesses brings it closer, and leaves the other locks free. */
  lemma AloneAdvances(s: Sys, at: map<Pkt, Place>, t: ThreadId)
    requires Inv(s, at) && t in s.threads && LocksFree(s, t) && !s.threads[t].phase.Idle?
    ensures var s' := Exec(s, t, []);
            t in s'.threads && LocksFree(s', t) && Left(s'.threads[t].phase) < Left(s.threads[t].phase)
  {
    hide Inv, ActOf, LocksFree, Unhindered, Left;
    InvIsWf(s, at);
    InvUnhinders(s, at, t);
    LeftDecreases(s, t);
    OthersLocksStayFree(s, t);
  }

  lemma PoolAccepts(s: Sys, at: map<Pkt, Place>, t: ThreadId)
    requires Inv(s, at) && t in s.threads && s.threads[t].phase.PutCheck? && s.threads[t].phase.dst.PoolRing?
    ensures var dst := s.threads[t].phase.dst; dst in s.rings && |Queue(s, dst)| < Cap(dst)
  {
    hide RingOk, MqRing.Contents;
    var ph := s.threads[t].phase;
    assert ThreadOk(s, t);
    OwnerHome(s, at, t, ph.k);
    PoolHasRoom(s, at, ph.k);
  }

  /** Thread t makes n accesses while the others stand still. */
  function Alone(s: Sys, t: ThreadId, n: nat): (s': Sys)
    requires Wf(s) && t in s.threads
    ensures Wf(s')
    decreases n
  {
    if n == 0 then s
    else
      ExecKeepsWf(s, t, []);
      assert ValidThread(s, t);
      Alone(Exec(s, t, []), t, n - 1)
  }

  lemma LeftBound(ph: Phase)
    ensures Left(ph) <= 11 && (Left(ph) == 0 ==> ph.Idle?)
  {
  }

  /** From any reachable state, a thread that no other thread keeps from a lock has dealt with its packet and is
      idle again after at most 11 accesses of its own. */
  lemma {:induction false} AloneGetsIdle(s: Sys, at: map<Pkt, Place>, t: ThreadId) returns (n: nat)
    requires Inv(s, at) && t in s.threads && LocksFree(s, t)
    ensures n <= Left(s.threads[t].phase) <= 11
    ensures var s' := Alone(s, t, n); t in s'.threads && s'.threads[t].phase.Idle?
    decreases Left(s.threads[t].phase)
  {
    hide Inv, Exec, ActOf, LocksFree, Left;
    InvIsWf(s, at);
    LeftBound(s.threads[t].phase);
    if s.threads[t].phase.Idle? {
      n := 0;
    } else {
      AloneAdvances(s, at, t);
      StepKeepsInv(s, at, t, []);
      n := AloneGetsIdle(Exec(s, t, []), Moved(at, t, ActOf(s, t, []).e), t);
      n := n + 1;
    }
  }
}
