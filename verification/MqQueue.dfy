/** The two-lock linked queue of itf_mq_queue.c, interleaved at single accesses to shared memory.
    Freed addresses may be handed out again by the allocator at once. */
module MqQueue {
  import opened Sequences
  import opened Wrappers

  type Addr = nat
  type Tid = nat
  type Value = nat

  datatype Node = Node(value: Value, next: Option<Addr>)

  /** Where a thread stands between two shared accesses of enqueue or dequeue. */
  datatype Phase =
    | Idle
    | EnqLock(n: Addr)                         // node filled in, about to take q_t_lock
    | EnqLink(n: Addr)                         // about to write tail->next
    | EnqSwing(n: Addr)                        // about to write tail
    | EnqUnlock
    | DeqLock                                  // about to take q_h_lock
    | DeqHead                                  // about to read head
    | DeqNext(node: Addr)                      // about to read node->next
    | DeqValue(node: Addr, newHead: Addr)      // about to read newHead->value
    | DeqSwing(node: Addr, newHead: Addr, v: Value)    // about to write head
    | DeqUnlock(dead: Option<Addr>)
    | DeqFree(node: Addr)

  datatype Sys = Sys(
    heap: map<Addr, Node>,
    head: Addr,
    tail: Addr,
    hLock: Option<Tid>,
    tLock: Option<Tid>,
    threads: map<Tid, Phase>)

  datatype Event =
    | Quiet
    | Enqueued(v: Value)     // the link write
    | Dequeued(v: Value)     // the head swing
    | FoundEmpty             // the read of a null next
    | Fault                  // a freed node was read, written or freed

  /** An idle thread's next call; the allocator answers calloc with `addr`. */
  datatype Call = Enqueue(v: Value, addr: Addr) | Dequeue

  datatype Choice = Choice(t: Tid, call: Call)

  function At(s: Sys, t: Tid): Phase {
    if t in s.threads then s.threads[t] else Idle
  }

  function Go(s: Sys, t: Tid, ph: Phase): Sys {
    Sys(s.heap, s.head, s.tail, s.hLock, s.tLock, s.threads[t := ph])
  }

  function StepEnqueue(s: Sys, t: Tid): (Sys, Event) {
    match At(s, t)
    case EnqLock(n) =>
      if s.tLock.Some? then (s, Quiet)
      else (Sys(s.heap, s.head, s.tail, s.hLock, Some(t), s.threads[t := EnqLink(n)]), Quiet)
    case EnqLink(n) =>
      if s.tail !in s.heap || n !in s.heap then (s, Fault)
      else
        (Sys(s.heap[s.tail := Node(s.heap[s.tail].value, Some(n))], s.head, s.tail, s.hLock, s.tLock,
             s.threads[t := EnqSwing(n)]), Enqueued(s.heap[n].value))
    case EnqSwing(n) =>
      (Sys(s.heap, s.head, n, s.hLock, s.tLock, s.threads[t := EnqUnlock]), Quiet)
    case EnqUnlock =>
      (Sys(s.heap, s.head, s.tail, s.hLock, None, s.threads[t := Idle]), Quiet)
    case _ => (s, Quiet)
  }

  function StepDequeue(s: Sys, t: Tid): (Sys, Event) {
    match At(s, t)
    case DeqLock =>
      if s.hLock.Some? then (s, Quiet)
      else (Sys(s.heap, s.head, s.tail, Some(t), s.tLock, s.threads[t := DeqHead]), Quiet)
    case DeqHead => (Go(s, t, DeqNext(s.head)), Quiet)
    case DeqNext(node) =>
      if node !in s.heap then (s, Fault)
      else if s.heap[node].next.None? then (Go(s, t, DeqUnlock(None)), FoundEmpty)
      else (Go(s, t, DeqValue(node, s.heap[node].next.value)), Quiet)
    case DeqValue(node, newHead) =>
      if newHead !in s.heap then (s, Fault)
      else (Go(s, t, DeqSwing(node, newHead, s.heap[newHead].value)), Quiet)
    case DeqSwing(node, newHead, v) =>
      (Sys(s.heap, newHead, s.tail, s.hLock, s.tLock, s.threads[t := DeqUnlock(Some(node))]), Dequeued(v))
    case DeqUnlock(dead) =>
      (Sys(s.heap, s.head, s.tail, None, s.tLock,
           s.threads[t := if dead.Some? then DeqFree(dead.value) else Idle]), Quiet)
    case DeqFree(node) =>
      if node !in s.heap then (s, Fault)
      else (Sys(s.heap - {node}, s.head, s.tail, s.hLock, s.tLock, s.threads[t := Idle]), Quiet)
    case _ => (s, Quiet)
  }

  /** calloc never answers with an address still in use. */
  function StepCall(s: Sys, t: Tid, call: Call): (Sys, Event) {
    match call
    case Dequeue => (Go(s, t, DeqLock), Quiet)
    case Enqueue(v, a) =>
      if a in s.heap then (s, Quiet)
      else (Sys(s.heap[a := Node(v, None)], s.head, s.tail, s.hLock, s.tLock, s.threads[t := EnqLock(a)]), Quiet)
  }

  predicate Enqueuing(ph: Phase) {
    ph.EnqLock? || ph.EnqLink? || ph.EnqSwing? || ph.EnqUnlock?
  }

  function Exec(s: Sys, c: Choice): (Sys, Event) {
    var ph := At(s, c.t);
    if ph.Idle? then StepCall(s, c.t, c.call)
    else if Enqueuing(ph) then StepEnqueue(s, c.t)
    else StepDequeue(s, c.t)
  }

  /** initialize_queue: one dummy node, head and tail on it. */
  function Init(dummy: Addr): Sys {
    Sys(map[dummy := Node(0, None)], dummy, dummy, None, None, map[])
  }

  datatype Outcome = Outcome(s: Sys, events: seq<Event>)

  function Run(dummy: Addr, sched: seq<Choice>): Outcome {
    if sched == [] then Outcome(Init(dummy), [])
    else
      var o := Run(dummy, sched[..|sched| - 1]);
      var (s, e) := Exec(o.s, sched[|sched| - 1]);
      Outcome(s, o.events + [e])
  }

  // ---- The sequential queue the events must follow ----

  datatype Fifo = Legal(q: seq<Value>) | Illegal

  function FifoStep(f: Fifo, e: Event): Fifo {
    if f.Illegal? then Illegal
    else match e
      case Quiet => f
      case Enqueued(v) => Legal(f.q + [v])
      case Dequeued(v) => if f.q != [] && f.q[0] == v then Legal(f.q[1..]) else Illegal
      case FoundEmpty => if f.q == [] then f else Illegal
      case Fault => Illegal
  }

  function FifoRun(events: seq<Event>): Fifo {
    if events == [] then Legal([])
    else FifoStep(FifoRun(events[..|events| - 1]), events[|events| - 1])
  }

  // ---- Invariant ----

  /** The chain of nodes from head: linked, distinct, all allocated, null-terminated. */
  ghost predicate Chain(s: Sys, ch: seq<Addr>) {
    && ch != [] && ch[0] == s.head
    && (forall i :: 0 <= i < |ch| ==> ch[i] in s.heap)
    && (forall i, j :: 0 <= i < j < |ch| ==> ch[i] != ch[j])
    && (forall i :: 0 <= i < |ch| - 1 ==> s.heap[ch[i]].next == Some(ch[i + 1]))
    && s.heap[ch[|ch| - 1]].next == None
  }

  predicate HoldsT(ph: Phase) { ph.EnqLink? || ph.EnqSwing? || ph.EnqUnlock? }

  predicate HoldsH(ph: Phase) {
    ph.DeqHead? || ph.DeqNext? || ph.DeqValue? || ph.DeqSwing? || ph.DeqUnlock?
  }

  /** The node only this thread can reach: not yet linked, or unlinked and not yet freed. */
  function Private(ph: Phase): Option<Addr> {
    match ph
    case EnqLock(n) => Some(n)
    case EnqLink(n) => Some(n)
    case DeqUnlock(dead) => dead
    case DeqFree(node) => Some(node)
    case _ => None
  }

  ghost predicate Locks(s: Sys) {
    && (forall t: Tid :: HoldsT(At(s, t)) <==> s.tLock == Some(t))
    && (forall t: Tid :: HoldsH(At(s, t)) <==> s.hLock == Some(t))
  }

  ghost predicate Privates(s: Sys, ch: seq<Addr>) {
    && (forall t: Tid :: Private(At(s, t)).Some? ==>
          Private(At(s, t)).value in s.heap && Private(At(s, t)).value !in ch)
    && (forall t: Tid, u: Tid :: t != u && Private(At(s, t)).Some? ==> Private(At(s, u)) != Private(At(s, t)))
    && (forall t: Tid :: At(s, t).EnqLock? || At(s, t).EnqLink? ==> s.heap[Private(At(s, t)).value].next == None)
  }

  /** Outside the moment between link and swing, tail is the last node; then it may even be freed. */
  ghost predicate TailOk(s: Sys, ch: seq<Addr>)
    requires ch != []
  {
    if s.tLock.Some? && At(s, s.tLock.value).EnqSwing?
    then At(s, s.tLock.value).n == ch[|ch| - 1]
    else s.tail == ch[|ch| - 1]
  }

  ghost predicate HeadReader(s: Sys, ch: seq<Addr>, ph: Phase)
    requires Chain(s, ch)
  {
    && (ph.DeqNext? ==> ph.node == s.head)
    && (ph.DeqValue? || ph.DeqSwing? ==> ph.node == s.head && |ch| >= 2 && ph.newHead == ch[1])
    && (ph.DeqSwing? ==> s.heap[ph.newHead].value == ph.v)
  }

  ghost predicate Inv(s: Sys, ch: seq<Addr>) {
    && Chain(s, ch) && Locks(s) && Privates(s, ch) && TailOk(s, ch)
    && (forall t: Tid :: HeadReader(s, ch, At(s, t)))
  }

  function Values(heap: map<Addr, Node>, ch: seq<Addr>): seq<Value>
    requires forall i :: 0 <= i < |ch| ==> ch[i] in heap
  {
    seq(|ch|, i requires 0 <= i < |ch| => heap[ch[i]].value)
  }

  /** The queued values: every node of the chain but the dummy. */
  function Contents(s: Sys, ch: seq<Addr>): seq<Value>
    requires ch != [] && forall i :: 0 <= i < |ch| ==> ch[i] in s.heap
  {
    Values(s.heap, ch)[1..]
  }

  function NextChain(s: Sys, ch: seq<Addr>, t: Tid): seq<Addr>
    requires ch != []
  {
    match At(s, t)
    case EnqLink(n) => ch + [n]
    case DeqSwing(_, _, _) => ch[1..]
    case _ => ch
  }

  lemma SameContents(s: Sys, s': Sys, ch: seq<Addr>)
    requires ch != [] && forall i :: 0 <= i < |ch| ==> ch[i] in s.heap && ch[i] in s'.heap
    requires forall i :: 0 <= i < |ch| ==> s'.heap[ch[i]].value == s.heap[ch[i]].value
    ensures Contents(s', ch) == Contents(s, ch)
  {
    assert Values(s'.heap, ch) == Values(s.heap, ch);
  }

  /** Nodes outside the chain come and go. */
  lemma ChainKept(s: Sys, s': Sys, ch: seq<Addr>)
    requires Chain(s, ch) && s'.head == s.head
    requires forall i :: 0 <= i < |ch| ==> ch[i] in s'.heap && s'.heap[ch[i]] == s.heap[ch[i]]
    ensures Chain(s', ch) && Contents(s', ch) == Contents(s, ch)
  {
    hide Contents;
    SameContents(s, s', ch);
  }

  /** A move of thread t to phase ph that takes and leaves no lock. */
  lemma SameLocks(s: Sys, s': Sys, t: Tid, ph: Phase)
    requires Locks(s) && s'.threads == s.threads[t := ph] && s'.tLock == s.tLock && s'.hLock == s.hLock
    requires (HoldsT(ph) <==> HoldsT(At(s, t))) && (HoldsH(ph) <==> HoldsH(At(s, t)))
    ensures Locks(s')
  {
    assert forall u: Tid :: u != t ==> At(s', u) == At(s, u);
  }

  /** A move that keeps the thread's private node, if any. */
  lemma SamePrivates(s: Sys, s': Sys, ch: seq<Addr>, t: Tid, ph: Phase)
    requires Privates(s, ch) && s'.heap == s.heap && s'.threads == s.threads[t := ph]
    requires Private(ph) == Private(At(s, t))
    requires ph.EnqLock? || ph.EnqLink? ==> At(s, t).EnqLock? || At(s, t).EnqLink?
    ensures Privates(s', ch)
  {
    assert forall u: Tid :: u != t ==> At(s', u) == At(s, u);
  }

  /** What the locks say of one thread. */
  lemma LocksAt(s: Sys, t: Tid)
    requires Locks(s)
    ensures HoldsT(At(s, t)) <==> s.tLock == Some(t)
    ensures HoldsH(At(s, t)) <==> s.hLock == Some(t)
  {
  }

  lemma StepAllocOk(s: Sys, ch: seq<Addr>, c: Choice)
    requires Inv(s, ch) && At(s, c.t).Idle? && c.call.Enqueue?
    ensures var (s', e) := Exec(s, c);
            Inv(s', ch) && FifoStep(Legal(Contents(s, ch)), e) == Legal(Contents(s', ch))
  {
    hide Contents, Chain, Locks, Privates;
    HeadReaderAt(s, ch, c.t);
    var (s', e) := Exec(s, c);
    if s' != s {
      assert forall t: Tid :: t != c.t ==> At(s', t) == At(s, t);
      SameLocks(s, s', c.t, EnqLock(c.call.addr));
      LocksAt(s, c.t);
      AllocPrivates(s, s', ch, c.t, c.call.addr, c.call.v);
      ChainKept(s, s', ch);
    }
  }

  lemma AllocPrivates(s: Sys, s': Sys, ch: seq<Addr>, t: Tid, a: Addr, v: Value)
    requires Privates(s, ch) && At(s, t).Idle? && a !in s.heap && forall i :: 0 <= i < |ch| ==> ch[i] in s.heap
    requires s'.heap == s.heap[a := Node(v, None)] && s'.threads == s.threads[t := EnqLock(a)]
    ensures Privates(s', ch)
  {
    assert forall u: Tid :: u != t ==> At(s', u) == At(s, u);
  }

  lemma StepCallOk(s: Sys, ch: seq<Addr>, c: Choice)
    requires Inv(s, ch) && At(s, c.t).Idle?
    ensures var (s', e) := Exec(s, c);
            Inv(s', ch) && FifoStep(Legal(Contents(s, ch)), e) == Legal(Contents(s', ch))
  {
    hide Contents, Inv, Chain, Go;
    HeadReaderAt(s, ch, c.t);
    if c.call.Enqueue? {
      StepAllocOk(s, ch, c);
    } else {
      ReaderMoves(s, ch, c.t, DeqLock);
    }
  }

  lemma StepTLockOk(s: Sys, ch: seq<Addr>, c: Choice)
    requires Inv(s, ch) && (At(s, c.t).EnqLock? || At(s, c.t).EnqUnlock?)
    ensures var (s', e) := Exec(s, c);
            Inv(s', ch) && FifoStep(Legal(Contents(s, ch)), e) == Legal(Contents(s', ch))
  {
    hide Contents, Chain, Privates;
    HeadReaderAt(s, ch, c.t);
    var (s', e) := Exec(s, c);
    assert HoldsT(At(s, c.t)) <==> s.tLock == Some(c.t);
    assert forall t: Tid :: t != c.t ==> At(s', t) == At(s, t);
    if s' != s {
      SamePrivates(s, s', ch, c.t, At(s', c.t));
    }
    ChainKept(s, s', ch);
  }

  lemma StepHLockOk(s: Sys, ch: seq<Addr>, c: Choice)
    requires Inv(s, ch) && (At(s, c.t).DeqLock? || At(s, c.t).DeqUnlock?)
    ensures var (s', e) := Exec(s, c);
            Inv(s', ch) && FifoStep(Legal(Contents(s, ch)), e) == Legal(Contents(s', ch))
  {
    hide Contents, Chain, Privates;
    HeadReaderAt(s, ch, c.t);
    var (s', e) := Exec(s, c);
    assert HoldsH(At(s, c.t)) <==> s.hLock == Some(c.t);
    assert forall t: Tid :: t != c.t ==> At(s', t) == At(s, t);
    if s' != s {
      SamePrivates(s, s', ch, c.t, At(s', c.t));
    }
    ChainKept(s, s', ch);
  }

  /** The new node behind the last one: the chain and its contents grow by it. */
  lemma LinkedChain(s: Sys, s': Sys, ch: seq<Addr>, n: Addr)
    requires Chain(s, ch) && n in s.heap && n !in ch && s.heap[n].next == None && s'.head == s.head
    requires var last := ch[|ch| - 1]; s'.heap == s.heap[last := Node(s.heap[last].value, Some(n))]
    ensures Chain(s', ch + [n])
    ensures Contents(s', ch + [n]) == Contents(s, ch) + [s.heap[n].value]
  {
  }

  lemma StepLinkOk(s: Sys, ch: seq<Addr>, c: Choice)
    requires Inv(s, ch) && At(s, c.t).EnqLink?
    ensures var (s', e) := Exec(s, c);
            var ch' := NextChain(s, ch, c.t);
            Inv(s', ch') && FifoStep(Legal(Contents(s, ch)), e) == Legal(Contents(s', ch'))
  {
    hide Contents, Chain, Locks, Privates;
    HeadReaderAt(s, ch, c.t);
    LocksAt(s, c.t);
    var (s', e) := Exec(s, c);
    var n := At(s, c.t).n;
    PrivateAt(s, ch, c.t);
    assert forall t: Tid :: t != c.t ==> At(s', t) == At(s, t);
    assert s.tail == ch[|ch| - 1];
    LinkedChain(s, s', ch, n);
    SameLocks(s, s', c.t, EnqSwing(n));
    LinkPrivates(s, s', ch, c.t, n);
  }

  /** A thread's private node is allocated and not in the chain, and one yet to be linked ends in null. */
  lemma PrivateAt(s: Sys, ch: seq<Addr>, t: Tid)
    requires Privates(s, ch)
    ensures var ph := At(s, t);
            && (Private(ph).Some? ==> Private(ph).value in s.heap && Private(ph).value !in ch)
            && (ph.EnqLink? ==> s.heap[ph.n].next == None)
  {
  }

  lemma LinkPrivates(s: Sys, s': Sys, ch: seq<Addr>, t: Tid, n: Addr)
    requires Privates(s, ch) && At(s, t) == EnqLink(n) && ch != [] && ch[|ch| - 1] in s.heap
    requires s'.threads == s.threads[t := EnqSwing(n)]
    requires var last := ch[|ch| - 1]; s'.heap == s.heap[last := Node(s.heap[last].value, Some(n))]
    ensures Privates(s', ch + [n])
  {
    assert Private(At(s, t)) == Some(n);
    assert forall u: Tid :: u != t ==> At(s', u) == At(s, u);
  }

  lemma StepSwingTailOk(s: Sys, ch: seq<Addr>, c: Choice)
    requires Inv(s, ch) && At(s, c.t).EnqSwing?
    ensures var (s', e) := Exec(s, c);
            Inv(s', ch) && FifoStep(Legal(Contents(s, ch)), e) == Legal(Contents(s', ch))
  {
    var (s', e) := Exec(s, c);
    assert HoldsT(At(s, c.t));
    assert forall t: Tid :: t != c.t ==> At(s', t) == At(s, t);
  }

  /** The head reader meets null exactly when nothing is queued. */
  lemma NextOfHead(s: Sys, ch: seq<Addr>)
    requires Chain(s, ch)
    ensures s.heap[s.head].next == if |ch| == 1 then None else Some(ch[1])
    ensures |ch| == 1 <==> Contents(s, ch) == []
  {
    assert ch[0] == s.head;
  }

  /** A step of a dequeue that changes nothing but its own phase. */
  lemma ReaderMoves(s: Sys, ch: seq<Addr>, t: Tid, ph: Phase)
    requires Inv(s, ch) && HeadReader(s, ch, ph) && (HoldsH(At(s, t)) <==> HoldsH(ph))
    requires !Enqueuing(At(s, t)) && !Enqueuing(ph)
    requires Private(At(s, t)) == None == Private(ph)
    ensures Inv(Go(s, t, ph), ch) && Contents(Go(s, t, ph), ch) == Contents(s, ch)
  {
    hide Contents, Chain, Locks, Privates;
    HeadReaderAt(s, ch, t);
    var s' := Go(s, t, ph);
    assert forall u: Tid :: u != t ==> At(s', u) == At(s, u);
    ChainKept(s, s', ch);
    SameLocks(s, s', t, ph);
    SamePrivates(s, s', ch, t, ph);
    LocksAt(s, t);
  }

  lemma StepNextOk(s: Sys, ch: seq<Addr>, c: Choice)
    requires Inv(s, ch) && At(s, c.t).DeqNext?
    ensures var (s', e) := Exec(s, c);
            Inv(s', ch) && FifoStep(Legal(Contents(s, ch)), e) == Legal(Contents(s', ch))
  {
    hide Contents, Inv, Chain, Go;
    HeadReaderAt(s, ch, c.t);
    NextOfHead(s, ch);
    var next := s.heap[s.head].next;
    ReaderMoves(s, ch, c.t, if next.None? then DeqUnlock(None) else DeqValue(s.head, next.value));
  }

  lemma HeadReaderAt(s: Sys, ch: seq<Addr>, t: Tid)
    requires Inv(s, ch)
    ensures Chain(s, ch) && ch != [] && s.head in s.heap && HeadReader(s, ch, At(s, t))
    ensures forall i :: 0 <= i < |ch| ==> ch[i] in s.heap
  {
    assert ch[0] == s.head;
  }

  lemma StepReadOk(s: Sys, ch: seq<Addr>, c: Choice)
    requires Inv(s, ch) && (At(s, c.t).DeqHead? || At(s, c.t).DeqValue?)
    ensures var (s', e) := Exec(s, c);
            Inv(s', ch) && FifoStep(Legal(Contents(s, ch)), e) == Legal(Contents(s', ch))
  {
    hide Contents, Inv, Chain, Go;
    HeadReaderAt(s, ch, c.t);
    var ph := At(s, c.t);
    if ph.DeqHead? {
      ReaderMoves(s, ch, c.t, DeqNext(s.head));
    } else {
      ReaderMoves(s, ch, c.t, DeqSwing(ph.node, ph.newHead, s.heap[ph.newHead].value));
    }
  }

  /** Past the dummy: the first queued value leaves. */
  lemma PoppedChain(s: Sys, s': Sys, ch: seq<Addr>)
    requires Chain(s, ch) && |ch| >= 2 && s'.heap == s.heap && s'.head == ch[1]
    ensures Chain(s', ch[1..]) && ch[0] == s.head && ch[0] !in ch[1..]
    ensures Contents(s, ch) != [] && Contents(s, ch)[0] == s.heap[ch[1]].value
    ensures Contents(s', ch[1..]) == Contents(s, ch)[1..]
  {
  }

  lemma StepSwingHeadOk(s: Sys, ch: seq<Addr>, c: Choice)
    requires Inv(s, ch) && At(s, c.t).DeqSwing?
    ensures var (s', e) := Exec(s, c);
            var ch' := NextChain(s, ch, c.t);
            Inv(s', ch') && FifoStep(Legal(Contents(s, ch)), e) == Legal(Contents(s', ch'))
  {
    hide Contents, Chain, Privates, Locks;
    var (s', e) := Exec(s, c);
    HeadReaderAt(s, ch, c.t);
    PoppedChain(s, s', ch);
    SwungLocks(s, s', c.t);
    SwungPrivates(s, s', ch, c.t);
  }

  lemma SwungLocks(s: Sys, s': Sys, t: Tid)
    requires Locks(s) && At(s, t).DeqSwing?
    requires s' == Sys(s.heap, At(s, t).newHead, s.tail, s.hLock, s.tLock,
                       s.threads[t := DeqUnlock(Some(At(s, t).node))])
    ensures Locks(s') && s.tLock != Some(t)
    ensures forall u: Tid :: u != t ==> At(s', u) == At(s, u) && !HoldsH(At(s, u))
  {
    assert HoldsH(At(s, t));
    assert forall u: Tid :: u != t ==> At(s', u) == At(s, u);
  }

  /** The old dummy becomes private to the thread that will free it. */
  lemma SwungPrivates(s: Sys, s': Sys, ch: seq<Addr>, t: Tid)
    requires Privates(s, ch) && |ch| >= 2 && ch[0] in s.heap && ch[0] !in ch[1..]
    requires At(s, t).DeqSwing? && At(s, t).node == ch[0]
    requires s' == Sys(s.heap, At(s, t).newHead, s.tail, s.hLock, s.tLock,
                       s.threads[t := DeqUnlock(Some(At(s, t).node))])
    ensures Privates(s', ch[1..])
  {
    assert ch[0] in ch;
    assert forall u: Tid :: u != t ==> At(s', u) == At(s, u);
    assert forall x :: x in ch[1..] ==> x in ch;
  }

  lemma StepFreeOk(s: Sys, ch: seq<Addr>, c: Choice)
    requires Inv(s, ch) && At(s, c.t).DeqFree?
    ensures var (s', e) := Exec(s, c);
            Inv(s', ch) && FifoStep(Legal(Contents(s, ch)), e) == Legal(Contents(s', ch))
  {
    hide Contents, Chain, Locks, Privates;
    HeadReaderAt(s, ch, c.t);
    LocksAt(s, c.t);
    var (s', e) := Exec(s, c);
    assert forall t: Tid :: t != c.t ==> At(s', t) == At(s, t);
    PrivateAt(s, ch, c.t);
    FreePrivates(s, s', ch, c.t);
    SameLocks(s, s', c.t, Idle);
    ChainKept(s, s', ch);
  }

  lemma FreePrivates(s: Sys, s': Sys, ch: seq<Addr>, t: Tid)
    requires Privates(s, ch) && At(s, t).DeqFree?
    requires s'.heap == s.heap - {At(s, t).node} && s'.threads == s.threads[t := Idle]
    ensures Privates(s', ch)
  {
    assert Private(At(s, t)) == Some(At(s, t).node);
    assert forall u: Tid :: u != t ==> At(s', u) == At(s, u);
  }

  lemma StepOk(s: Sys, ch: seq<Addr>, c: Choice)
    requires Inv(s, ch)
    ensures var (s', e) := Exec(s, c);
            var ch' := NextChain(s, ch, c.t);
            Inv(s', ch') && FifoStep(Legal(Contents(s, ch)), e) == Legal(Contents(s', ch'))
  {
    hide Inv, Exec;
    match At(s, c.t)
    case Idle => StepCallOk(s, ch, c);
    case EnqLock(_) => StepTLockOk(s, ch, c);
    case EnqLink(_) => StepLinkOk(s, ch, c);
    case EnqSwing(_) => StepSwingTailOk(s, ch, c);
    case EnqUnlock => StepTLockOk(s, ch, c);
    case DeqLock => StepHLockOk(s, ch, c);
    case DeqSwing(_, _, _) => StepSwingHeadOk(s, ch, c);
    case DeqUnlock(_) => StepHLockOk(s, ch, c);
    case DeqFree(_) => StepFreeOk(s, ch, c);
    case DeqNext(_) => StepNextOk(s, ch, c);
    case _ => StepReadOk(s, ch, c);
  }

  /** Every run is linearizable: its events form a legal history of one FIFO queue, whose contents
      are the linked nodes after the dummy. In particular no run contains a Fault. */
  lemma {:induction false} RunIsFifo(dummy: Addr, sched: seq<Choice>) returns (ch: seq<Addr>)
    ensures var o := Run(dummy, sched);
            Inv(o.s, ch) && FifoRun(o.events) == Legal(Contents(o.s, ch))
  {
    if sched == [] {
      ch := [dummy];
    } else {
      var c := sched[|sched| - 1];
      var o := Run(dummy, sched[..|sched| - 1]);
      var ch0 := RunIsFifo(dummy, sched[..|sched| - 1]);
      StepOk(o.s, ch0, c);
      ch := NextChain(o.s, ch0, c.t);
      var e := Exec(o.s, c).1;
      assert (o.events + [e])[..|o.events|] == o.events;
    }
  }

  lemma {:induction false} LegalHasNoFault(events: seq<Event>)
    requires FifoRun(events).Legal?
    ensures Fault !in events
  {
    if events != [] { LegalHasNoFault(events[..|events| - 1]); }
  }

  function PutIn(events: seq<Event>): seq<Value> {
    if events == [] then []
    else
      var e := events[|events| - 1];
      PutIn(events[..|events| - 1]) + if e.Enqueued? then [e.v] else []
  }

  function TakenOut(events: seq<Event>): seq<Value> {
    if events == [] then []
    else
      var e := events[|events| - 1];
      TakenOut(events[..|events| - 1]) + if e.Dequeued? then [e.v] else []
  }

  lemma {:induction false} LegalMeans(events: seq<Event>)
    requires FifoRun(events).Legal?
    ensures PutIn(events) == TakenOut(events) + FifoRun(events).q
    ensures events != [] && events[|events| - 1].FoundEmpty? ==> FifoRun(events).q == []
  {
    if events != [] {
      var before := events[..|events| - 1];
      LegalMeans(before);
      Associates(TakenOut(before), FifoRun(before).q, PutIn(events)[|PutIn(before)|..]);
    }
  }

  /** In every run the values enqueued are, in order, those dequeued followed by those the queue holds, and it is
      found empty only when it is. */
  lemma ValuesKeepOrder(dummy: Addr, sched: seq<Choice>) returns (ch: seq<Addr>)
    ensures var o := Run(dummy, sched);
            && Inv(o.s, ch) && PutIn(o.events) == TakenOut(o.events) + Contents(o.s, ch)
            && (o.events != [] && o.events[|o.events| - 1].FoundEmpty? ==> Contents(o.s, ch) == [])
  {
    hide Run, Inv, FifoRun, PutIn, TakenOut, Contents;
    ch := RunIsFifo(dummy, sched);
    LegalMeans(Run(dummy, sched).events);
  }

  /** The nodes that the next access of thread t reads, writes, links or frees. */
  function Touched(s: Sys, t: Tid): set<Addr> {
    match At(s, t)
    case EnqLink(n) => {s.tail, n}
    case DeqNext(node) => {node}
    case DeqValue(_, newHead) => {newHead}
    case DeqFree(node) => {node}
    case _ => {}
  }

  lemma NoFault(dummy: Addr, sched: seq<Choice>)
    ensures Fault !in Run(dummy, sched).events
  {
    hide Run, FifoRun, Inv;
    var ch := RunIsFifo(dummy, sched);
    LegalHasNoFault(Run(dummy, sched).events);
  }

  lemma AccessIsNoFault(dummy: Addr, sched: seq<Choice>, t: Tid)
    ensures Touched(Run(dummy, sched).s, t) <= Run(dummy, sched).s.heap.Keys
  {
    var c := Choice(t, Dequeue);
    NoFault(dummy, sched + [c]);
    assert (sched + [c])[..|sched|] == sched;
    assert Exec(Run(dummy, sched).s, c).1 in Run(dummy, sched + [c]).events;
  }

  /** No thread ever reads, writes or frees a node that has been freed: whatever is accessed next is allocated. */
  lemma NoUseAfterFree(dummy: Addr, sched: seq<Choice>)
    ensures Fault !in Run(dummy, sched).events
    ensures var s := Run(dummy, sched).s; forall t: Tid :: Touched(s, t) <= s.heap.Keys
  {
    hide Run, Touched;
    NoFault(dummy, sched);
    forall t: Tid ensures Touched(Run(dummy, sched).s, t) <= Run(dummy, sched).s.heap.Keys {
      AccessIsNoFault(dummy, sched, t);
    }
  }

  // ---- Each call takes effect once, between its invocation and its return ----

  /** The calls that thread t has begun. */
  function Calls(dummy: Addr, sched: seq<Choice>, t: Tid): seq<Call> {
    if sched == [] then []
    else
      var before, c := sched[..|sched| - 1], sched[|sched| - 1];
      Calls(dummy, before, t) + Begun(Run(dummy, before).s, c, t)
  }

  function Begun(s: Sys, c: Choice, t: Tid): seq<Call> {
    if c.t == t && At(s, t).Idle? && !At(Exec(s, c).0, t).Idle? then [c.call] else []
  }

  /** The events of thread t that act on the queue. */
  function Effects(dummy: Addr, sched: seq<Choice>, t: Tid): seq<Event> {
    if sched == [] then []
    else
      var before, c := sched[..|sched| - 1], sched[|sched| - 1];
      Effects(dummy, before, t) + Caused(Run(dummy, before).s, c, t)
  }

  function Caused(s: Sys, c: Choice, t: Tid): seq<Event> {
    if c.t == t && !Exec(s, c).1.Quiet? then [Exec(s, c).1] else []
  }

  /** The event is one that this call may have: an enqueue puts in its own argument. */
  predicate Answers(c: Call, e: Event) {
    match c
    case Enqueue(v, _) => e == Enqueued(v)
    case Dequeue => e.Dequeued? || e.FoundEmpty?
  }

  /** The call under way has not had its effect yet. */
  predicate Waiting(ph: Phase) {
    ph.EnqLock? || ph.EnqLink? || ph.DeqLock? || ph.DeqHead? || ph.DeqNext? || ph.DeqValue? || ph.DeqSwing?
  }

  /** Every call but the one still waiting has had exactly one effect, and the waiting one still has its value. */
  ghost predicate Accounted(s: Sys, t: Tid, calls: seq<Call>, effects: seq<Event>) {
    var ph := At(s, t);
    && |calls| == |effects| + (if Waiting(ph) then 1 else 0)
    && (forall i :: 0 <= i < |effects| ==> Answers(calls[i], effects[i]))
    && (ph.EnqLock? || ph.EnqLink? ==>
          calls[|effects|].Enqueue? && ph.n in s.heap && s.heap[ph.n].value == calls[|effects|].v)
    && (Waiting(ph) && !ph.EnqLock? && !ph.EnqLink? ==> calls[|effects|].Dequeue?)
  }

  /** A node that thread t has prepared keeps its value while other threads move. */
  lemma OthersKeepNode(s: Sys, ch: seq<Addr>, c: Choice, t: Tid)
    requires Inv(s, ch) && c.t != t
    ensures var s' := Exec(s, c).0;
            && At(s', t) == At(s, t)
            && (At(s, t).EnqLock? || At(s, t).EnqLink? ==>
                  var n := At(s, t).n;
                  n in s.heap && n in s'.heap && s'.heap[n].value == s.heap[n].value)
  {
    hide Chain, Locks, TailOk, HeadReader;
    assert Private(At(s, t)).Some? ==> Private(At(s, c.t)) != Private(At(s, t));
  }

  lemma StepAccounted(s: Sys, ch: seq<Addr>, c: Choice, t: Tid, calls: seq<Call>, effects: seq<Event>)
    requires Inv(s, ch) && Accounted(s, t, calls, effects)
    ensures Accounted(Exec(s, c).0, t, calls + Begun(s, c, t), effects + Caused(s, c, t))
  {
    hide Inv, Contents;
    var (s', e) := Exec(s, c);
    StepOk(s, ch, c);
    assert !e.Fault?;
    if c.t != t {
      OthersKeepNode(s, ch, c, t);
    }
  }

  /** In every run every completed call of every thread has exactly one effect on the queue, after it began and
      before it returned; an enqueue's effect carries the value it was called with. */
  lemma {:induction false} CallsTakeEffectOnce(dummy: Addr, sched: seq<Choice>, t: Tid)
    ensures Accounted(Run(dummy, sched).s, t, Calls(dummy, sched, t), Effects(dummy, sched, t))
  {
    if sched != [] {
      var before := sched[..|sched| - 1];
      CallsTakeEffectOnce(dummy, before, t);
      var ch := RunIsFifo(dummy, before);
      StepAccounted(Run(dummy, before).s, ch, sched[|sched| - 1], t, Calls(dummy, before, t),
                    Effects(dummy, before, t));
    }
  }

  lemma RunExtends(dummy: Addr, sched: seq<Choice>, c: Choice)
    ensures Run(dummy, sched + [c]).s == Exec(Run(dummy, sched).s, c).0
  {
    assert (sched + [c])[..|sched|] == sched;
  }

  // ---- Every node is freed ----

  /** A node is linked or private to a thread, or it is not allocated. */
  ghost predicate Reachable(s: Sys, ch: seq<Addr>, a: Addr) {
    a in ch || exists t: Tid :: Private(At(s, t)) == Some(a)
  }

  ghost predicate NoLeak(s: Sys, ch: seq<Addr>) {
    forall a :: a in s.heap ==> Reachable(s, ch, a)
  }

  /** What one access allocates and what it frees. */
  lemma HeapStep(s: Sys, ch: seq<Addr>, c: Choice)
    requires Inv(s, ch)
    ensures var s' := Exec(s, c).0;
            forall a :: a in s'.heap ==>
              (a in s.heap && (At(s, c.t).DeqFree? ==> a != At(s, c.t).node)) || At(s', c.t) == EnqLock(a)
  {
    hide Chain, Locks, Privates, TailOk, HeadReader;
    HeadReaderAt(s, ch, c.t);
  }

  /** A private node stays its thread's, is linked, or is freed; the old dummy becomes private. */
  lemma PrivateStep(s: Sys, ch: seq<Addr>, c: Choice, a: Addr)
    requires Inv(s, ch) && (Private(At(s, c.t)) == Some(a) || a in ch)
    requires At(s, c.t).DeqFree? ==> a != At(s, c.t).node
    ensures var s' := Exec(s, c).0; a in NextChain(s, ch, c.t) || Private(At(s', c.t)) == Some(a)
  {
    hide Chain, Locks, Privates, TailOk;
    HeadReaderAt(s, ch, c.t);
    var (s', e) := Exec(s, c);
    if At(s, c.t).DeqSwing? {
      FirstOrLater(s, ch, a);
    } else if At(s, c.t).EnqLink? {
      PrivateAt(s, ch, c.t);
      TailIsLast(s, ch, c.t);
      assert a in ch ==> a in ch + [At(s, c.t).n];
    }
  }

  lemma FirstOrLater(s: Sys, ch: seq<Addr>, a: Addr)
    requires Chain(s, ch)
    ensures ch[0] == s.head && (a in ch ==> a == ch[0] || a in ch[1..])
  {
  }

  lemma TailIsLast(s: Sys, ch: seq<Addr>, t: Tid)
    requires Inv(s, ch) && At(s, t).EnqLink?
    ensures s.tail in s.heap
  {
    hide Privates, HeadReader;
    LocksAt(s, t);
    HeadReaderAt(s, ch, t);
    assert s.tail == ch[|ch| - 1];
  }

  lemma OthersStay(s: Sys, c: Choice, u: Tid)
    requires u != c.t
    ensures At(Exec(s, c).0, u) == At(s, u)
  {
  }

  lemma StepLeaksNothing(s: Sys, ch: seq<Addr>, c: Choice)
    requires Inv(s, ch) && NoLeak(s, ch) && ch != []
    ensures NoLeak(Exec(s, c).0, NextChain(s, ch, c.t))
  {
    hide Inv, Exec, NextChain;
    var s' := Exec(s, c).0;
    HeapStep(s, ch, c);
    forall a | a in s'.heap ensures Reachable(s', NextChain(s, ch, c.t), a) {
      if At(s', c.t) == EnqLock(a) {
        assert Private(At(s', c.t)) == Some(a);
      } else {
        assert Reachable(s, ch, a);
        if a in ch {
          PrivateStep(s, ch, c, a);
        } else {
          var u: Tid :| Private(At(s, u)) == Some(a);
          if u == c.t {
            PrivateStep(s, ch, c, a);
          } else {
            OthersStay(s, c, u);
          }
        }
      }
    }
  }

  /** In every run every allocated node is linked or in the hands of one thread: what is dequeued is freed. */
  lemma {:induction false} NothingLeaks(dummy: Addr, sched: seq<Choice>) returns (ch: seq<Addr>)
    ensures Inv(Run(dummy, sched).s, ch) && NoLeak(Run(dummy, sched).s, ch)
  {
    hide Exec, Inv, NextChain;
    if sched == [] {
      ch := [dummy];
      InitOk(dummy);
    } else {
      var before, c := sched[..|sched| - 1], sched[|sched| - 1];
      var ch0 := NothingLeaks(dummy, before);
      var s := Run(dummy, before).s;
      HeadReaderAt(s, ch0, c.t);
      StepOk(s, ch0, c);
      StepLeaksNothing(s, ch0, c);
      ch := NextChain(s, ch0, c.t);
    }
  }

  lemma InitOk(dummy: Addr)
    ensures Inv(Init(dummy), [dummy]) && NoLeak(Init(dummy), [dummy])
  {
  }

  // ---- A call left alone returns ----

  /** How many steps of its own a thread still needs, at most. */
  function Left(ph: Phase): nat {
    match ph
    case Idle => 0
    case EnqLock(_) => 4
    case EnqLink(_) => 3
    case EnqSwing(_) => 2
    case EnqUnlock => 1
    case DeqLock => 7
    case DeqHead => 6
    case DeqNext(_) => 5
    case DeqValue(_, _) => 4
    case DeqSwing(_, _, _) => 3
    case DeqUnlock(dead) => if dead.Some? then 2 else 1
    case DeqFree(_) => 1
  }

  /** The lock a thread waits for is free. */
  predicate LockFree(s: Sys, t: Tid) {
    (At(s, t).EnqLock? ==> s.tLock.None?) && (At(s, t).DeqLock? ==> s.hLock.None?)
  }

  lemma StepAdvances(s: Sys, c: Choice)
    requires !At(s, c.t).Idle? && LockFree(s, c.t) && !Exec(s, c).1.Fault?
    ensures var s' := Exec(s, c).0; Left(At(s', c.t)) < Left(At(s, c.t)) && LockFree(s', c.t)
  {
  }

  /** Thread t makes n steps while the others stand still. */
  function Alone(s: Sys, t: Tid, n: nat): Sys
    decreases n
  {
    if n == 0 then s else Alone(Exec(s, Choice(t, Dequeue)).0, t, n - 1)
  }

  /** From every reachable state a call whose lock is free returns after at most seven steps of its own; the lock it
      took is then free again. */
  lemma {:induction false} CallReturns(s: Sys, ch: seq<Addr>, t: Tid) returns (n: nat)
    requires Inv(s, ch) && LockFree(s, t)
    ensures n <= Left(At(s, t)) <= 7
    ensures var s' := Alone(s, t, n); At(s', t).Idle? && s'.tLock != Some(t) && s'.hLock != Some(t)
    decreases Left(At(s, t))
  {
    hide Inv, Exec, Left, LockFree;
    LeftBound(At(s, t));
    if At(s, t).Idle? {
      n := 0;
      IdleHoldsNone(s, ch, t);
    } else {
      var c := Choice(t, Dequeue);
      HeadReaderAt(s, ch, t);
      StepOk(s, ch, c);
      StepAdvances(s, c);
      n := CallReturns(Exec(s, c).0, NextChain(s, ch, t), t);
      n := n + 1;
    }
  }

  lemma LeftBound(ph: Phase)
    ensures Left(ph) <= 7 && (Left(ph) == 0 <==> ph.Idle?)
  {
  }

  lemma IdleHoldsNone(s: Sys, ch: seq<Addr>, t: Tid)
    requires Inv(s, ch) && At(s, t).Idle?
    ensures s.tLock != Some(t) && s.hLock != Some(t)
  {
    hide Privates, Chain, TailOk, HeadReader;
    LocksAt(s, t);
  }

  const ENQ := Choice(0, Enqueue(7, 1))
  const DEQ := Choice(1, Dequeue)

  /** Thread 0 has linked node 1 behind the dummy 0; thread 1 is k accesses into its dequeue. */
  function Lagging(k: nat): Sys
    requires k <= 7
  {
    Sys(if k == 7 then map[1 := Node(7, None)] else map[0 := Node(0, Some(1)), 1 := Node(7, None)],
        if k <= 4 then 0 else 1, 0,
        if 1 <= k <= 5 then Some(1) else None, Some(0),
        map[0 := EnqSwing(1),
            1 := [DeqLock, DeqHead, DeqNext(0), DeqValue(0, 1), DeqSwing(0, 1, 7),
                  DeqUnlock(Some(0)), DeqFree(0), Idle][k]])
  }

  lemma LaggingStep(k: nat)
    requires k < 7
    ensures Exec(Lagging(k), DEQ).0 == Lagging(k + 1)
  {
    assert At(Lagging(k), 1) == Lagging(k).threads[1];
  }

  lemma LaggingCalls()
    ensures Run(0, [DEQ, ENQ]).s
            == Sys(map[0 := Node(0, None), 1 := Node(7, None)], 0, 0, None, None, map[1 := DeqLock, 0 := EnqLock(1)])
  {
    RunExtends(0, [], DEQ);
    RunExtends(0, [DEQ], ENQ);
    assert [DEQ] == [] + [DEQ] && [DEQ, ENQ] == [DEQ] + [ENQ];
    assert Exec(Init(0), DEQ).0.threads == map[1 := DeqLock];
  }

  lemma LaggingStart()
    ensures Run(0, [DEQ, ENQ, ENQ, ENQ]).s == Lagging(0)
  {
    hide Run;
    LaggingCalls();
    RunExtends(0, [DEQ, ENQ], ENQ);
    RunExtends(0, [DEQ, ENQ, ENQ], ENQ);
    assert [DEQ, ENQ, ENQ] == [DEQ, ENQ] + [ENQ] && [DEQ, ENQ, ENQ, ENQ] == [DEQ, ENQ, ENQ] + [ENQ];
    assert Run(0, [DEQ, ENQ, ENQ]).s.threads == map[1 := DeqLock, 0 := EnqLink(1)];
  }

  /** The lag is real: a dequeuer may free the node that tail still names while the enqueuer that
      linked behind it has not swung tail yet. */
  lemma TailMayLagOnFreedNode() returns (sched: seq<Choice>)
    ensures var s := Run(0, sched).s; s.tail !in s.heap
  {
    hide Exec, Run;
    LaggingStart();
    sched := [DEQ, ENQ, ENQ, ENQ];
    for k := 0 to 7
      invariant Run(0, sched).s == Lagging(k)
    {
      RunExtends(0, sched, DEQ);
      LaggingStep(k);
      sched := sched + [DEQ];
    }
  }
}
