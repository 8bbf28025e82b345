/** buffer.c: output queued in a list of fixed-size chunks, written out in parts as the kernel takes it. */
module OutputBuffer {
  import opened Bytes
  import opened Sequences
  import opened Wrappers

  const MAX_CHUNKS: nat := 16
  const MAX_FLUSH: nat := 131072

  datatype Status = BUFFER_ERROR | BUFFER_EMPTY | BUFFER_PENDING

  /** What write or writev reports: a count, a retryable condition, or a failure. */
  datatype Kernel = Wrote(n: nat) | Retry | Failed

  ghost predicate TakesAPart(kernel: seq<byte> -> Kernel) {
    forall s :: kernel(s).Wrote? ==> kernel(s).n <= |s|
  }

  function Flat(c: seq<seq<byte>>): seq<byte> {
    if c == [] then [] else c[0] + Flat(c[1..])
  }

  lemma {:induction false} FlatSnoc(c: seq<seq<byte>>, x: seq<byte>)
    ensures Flat(c + [x]) == Flat(c) + x
  {
    if c == [] {
      assert c + [x] == [x] && Flat([x]) == x + Flat([x][1..]);
    } else {
      FlatSnoc(c[1..], x);
      assert (c + [x])[1..] == c[1..] + [x];
    }
  }

  lemma FlatLast(c: seq<seq<byte>>, x: seq<byte>)
    requires c != []
    ensures var k: nat := |c| - 1;
            Flat(c[k := c[k] + x]) == Flat(c) + x
  {
    var k: nat := |c| - 1;
    assert c == c[..k] + [c[k]] && c[k := c[k] + x] == c[..k] + [c[k] + x];
    FlatSnoc(c[..k], c[k]);
    FlatSnoc(c[..k], c[k] + x);
  }

  class Chunk {
    var next: Chunk?
    var cp: nat                // where new data goes
    var sp: nat                // the first byte not yet flushed
    const data: array<byte>

    constructor (size: nat)
      ensures next == null && cp == sp == 0 && fresh(data) && data.Length == size
      ensures Holds(size, [])
    {
      next, cp, sp := null, 0, 0;
      data := new byte[size];
    }

    /** memcpy to the end of the chunk's data. */
    method Append(ptr: seq<byte>, n: nat, ghost size: nat, ghost bytes: seq<byte>)
      requires Holds(size, bytes) && n <= |ptr| && cp + n <= size
      modifies this`cp, data
      ensures Holds(size, bytes + ptr[..n]) && cp == old(cp) + n
    {
      forall i | 0 <= i < n {
        data[cp + i] := ptr[i];
      }
      assert data[sp..cp] == bytes;
      assert data[cp..cp + n] == ptr[..n];
      assert data[sp..cp + n] == data[sp..cp] + data[cp..cp + n];
      cp := cp + n;
    }

    /** memcpy of the chunk's pending data. */
    method CopyTo(s: array<byte>, p: nat) returns (end: nat)
      requires sp <= cp <= data.Length && p + (cp - sp) <= s.Length && s != data
      modifies s
      ensures end == p + (cp - sp) && s[..end] == old(s[..p]) + data[sp..cp]
    {
      end := p + (cp - sp);
      ghost var done := s[..p];
      forall i | 0 <= i < cp - sp {
        s[p + i] := data[sp + i];
      }
      assert s[..p] == done && s[p..end] == data[sp..cp];
    }

    ghost predicate Holds(size: nat, bytes: seq<byte>)
      reads this`cp, this`sp, data
    {
      data.Length == size && sp <= cp <= size && data[sp..cp] == bytes
    }
  }

  /** The chunks from the head on. */
  ghost predicate Links(head: Chunk?, tail: Chunk?, chunks: seq<Chunk>)
    reads chunks`next
  {
    && head == (if chunks == [] then null else chunks[0])
    && tail == (if chunks == [] then null else chunks[|chunks| - 1])
    && forall i {:trigger chunks[i].next} :: 0 <= i < |chunks| ==>
              chunks[i].next == if i + 1 < |chunks| then chunks[i + 1] else null
  }

  ghost predicate Apart(chunks: seq<Chunk>) {
    forall i, j :: 0 <= i < j < |chunks| ==> chunks[i] != chunks[j] && chunks[i].data != chunks[j].data
  }

  lemma ApartSnoc(chunks: seq<Chunk>, d: Chunk)
    requires Apart(chunks) && forall i :: 0 <= i < |chunks| ==> chunks[i] != d && chunks[i].data != d.data
    ensures Apart(chunks + [d])
  {
  }

  class Buffer {
    const size: nat
    var head: Chunk?
    var tail: Chunk?
    ghost var chunks: seq<Chunk>
    ghost var contents: seq<seq<byte>>
    ghost var repr: set<object>

    /** The queue is well formed; its last chunk may be empty. */
    ghost predicate Shape()
      reads this, repr
    {
      && this in repr && size > 0 && |contents| == |chunks|
      && (forall i :: 0 <= i < |chunks| ==> chunks[i] in repr && chunks[i].data in repr)
      && Apart(chunks) && Links(head, tail, chunks)
      && (forall i :: 0 <= i < |chunks| ==> chunks[i].Holds(size, contents[i]))
      && (forall i :: 0 <= i < |chunks| - 1 ==> chunks[i].cp == size && contents[i] != [])
    }

    ghost predicate Valid()
      reads this, repr
    {
      Shape() && (chunks != [] ==> contents[|chunks| - 1] != [])
    }

    ghost function Pending(): seq<byte>
      reads this
    {
      Flat(contents)
    }

    constructor (size: nat)
      requires size > 0
      ensures Valid() && fresh(repr) && Pending() == [] && this.size == size
    {
      this.size, head, tail := size, null, null;
      chunks, contents, repr := [], [], {this};
    }

    method Attach(d: Chunk)
      requires Links(head, tail, chunks) && Apart(chunks) && d !in chunks && d.next == null
      modifies this`head, this`tail, chunks`next
      ensures Links(head, tail, chunks + [d])
    {
      if tail != null {
        tail.next := d;
      } else {
        head := d;
      }
      tail := d;
    }

    lemma LinksIn()
      requires Shape()
      ensures chunks == [] <==> tail == null
      ensures chunks == [] <==> head == null
      ensures chunks != [] ==> head == chunks[0] && tail == chunks[|chunks| - 1]
    {
    }

    /** buffer_add */
    method BufferAdd() returns (d: Chunk)
      requires Valid() && (chunks != [] ==> chunks[|chunks| - 1].cp == size)
      modifies this, chunks`next
      ensures Shape() && fresh(repr - old(repr)) && repr >= old(repr)
      ensures fresh(d) && fresh(d.data) && chunks == old(chunks) + [d] && contents == old(contents) + [[]]
      ensures d.cp == 0
    {
      hide Shape, Links, Apart, Chunk.Holds;
      AllFull();
      d := new Chunk(size);
      Attach(d);
      ApartSnoc(chunks, d);
      ghost var before, had := chunks, contents;
      chunks, contents := chunks + [d], contents + [[]];
      repr := repr + {d, d.data};
      OneMoreChunk(before, had, d);
    }

    /** The parts of the shape of a queue whose last chunk is full as well. */
    lemma AllFull()
      requires Valid() && (chunks != [] ==> chunks[|chunks| - 1].cp == size)
      ensures this in repr && size > 0 && |contents| == |chunks| && Apart(chunks) && Links(head, tail, chunks)
      ensures forall i :: 0 <= i < |chunks| ==> chunks[i] in repr && chunks[i].data in repr
      ensures forall i :: 0 <= i < |chunks| ==>
                chunks[i].Holds(size, contents[i]) && chunks[i].cp == size && contents[i] != []
    {
    }

    lemma OneMoreChunk(before: seq<Chunk>, had: seq<seq<byte>>, d: Chunk)
      requires chunks == before + [d] && |had| == |before| && contents == had + [[]]
      requires this in repr && size > 0 && Apart(chunks) && Links(head, tail, chunks)
      requires d in repr && d.data in repr && d.Holds(size, [])
      requires forall i :: 0 <= i < |before| ==> before[i] in repr && before[i].data in repr
      requires forall i :: 0 <= i < |before| ==>
                 before[i].Holds(size, had[i]) && before[i].cp == size && had[i] != []
      ensures Shape()
    {
    }

    /** The copy in buffer_put: as much as fits goes to the end of the last chunk. */
    method Fill(d: Chunk, ptr: seq<byte>) returns (chunk: nat)
      requires Shape() && chunks != [] && d == chunks[|chunks| - 1] && d.cp < size && ptr != []
      modifies this`contents, d`cp, d.data
      ensures Valid() && 0 < chunk <= |ptr| && (chunk < |ptr| ==> d.cp == size)
      ensures contents == old(contents)[|chunks| - 1 := old(contents)[|chunks| - 1] + ptr[..chunk]]
    {
      hide Links, Chunk.Holds;
      ghost var k: nat := |chunks| - 1;
      assert forall i :: 0 <= i < k ==> chunks[i] != d && chunks[i].data != d.data;
      chunk := if |ptr| <= size - d.cp then |ptr| else size - d.cp;
      d.Append(ptr, chunk, size, contents[k]);
      contents := contents[k := contents[k] + ptr[..chunk]];
    }

    /** buffer_put */
    method BufferPut(p: seq<byte>)
      requires Valid()
      modifies repr
      ensures Valid() && fresh(repr - old(repr)) && repr >= old(repr)
      ensures Pending() == old(Pending()) + p
    {
      hide Shape, Links, Apart, Chunk.Holds, Flat;
      LinksIn();
      var data := tail;
      var ptr := p;
      while |ptr| > 0
        invariant Valid() && fresh(repr - old(repr)) && repr >= old(repr)
        invariant data == (if chunks == [] then null else chunks[|chunks| - 1])
        invariant Pending() + ptr == old(Pending()) + p
        decreases |ptr|
      {
        var chunk;
        data, chunk := PutSome(data, ptr);
        assert ptr == ptr[..chunk] + ptr[chunk..];
        ptr := ptr[chunk..];
      }
    }

    /** The body of that loop. */
    method PutSome(data0: Chunk?, ptr: seq<byte>) returns (data: Chunk?, chunk: nat)
      requires Valid() && ptr != [] && data0 == if chunks == [] then null else chunks[|chunks| - 1]
      modifies repr
      ensures Valid() && fresh(repr - old(repr)) && repr >= old(repr)
      ensures chunks != [] && data == chunks[|chunks| - 1] && 0 < chunk <= |ptr|
      ensures Pending() == old(Pending()) + ptr[..chunk]
    {
      hide Links, Apart, Chunk.Holds, Flat;
      data := data0;
      ghost var before := contents;
      if data == null || data.cp == size {
        data := BufferAdd();
        FlatSnoc(before, []);
      }
      LastRoom();
      ghost var c := contents;
      chunk := Fill(data, ptr);
      FlatLast(c, ptr[..chunk]);
    }

    lemma LastRoom()
      requires Shape() && chunks != []
      ensures chunks[|chunks| - 1].cp <= size
      ensures chunks[|chunks| - 1] in repr && chunks[|chunks| - 1].data in repr
    {
    }

    lemma Visit(k: nat)
      requires Shape() && k < |chunks|
      ensures var d := chunks[k];
              && d in repr && d.data in repr
              && d.next == (if k + 1 < |chunks| then chunks[k + 1] else null)
              && d.sp <= d.cp <= d.data.Length && d.data[d.sp..d.cp] == contents[k] && d.cp - d.sp == |contents[k]|
      ensures Flat(contents[..k + 1]) == Flat(contents[..k]) + contents[k]
    {
      assert chunks[k].Holds(size, contents[k]);
      FlatSnoc(contents[..k], contents[k]);
      assert contents[..k + 1] == contents[..k] + [contents[k]];
    }

    lemma Walked()
      requires Shape()
      ensures |contents| == |chunks| && contents[..0] == [] && contents[..|chunks|] == contents
      ensures head == if chunks == [] then null else chunks[0]
    {
    }

    /** buffer_getstr: the pending bytes as a string. */
    method BufferGetstr() returns (s: array<byte>)
      requires Valid()
      ensures fresh(s) && s[..] == Pending() + [0]
    {
      hide Shape, Links, Apart, Chunk.Holds, Flat;
      Walked();
      var totlen: nat := 0;
      var data := head;
      ghost var k: nat := 0;
      FlatEmpty();
      while data != null
        invariant k <= |chunks| && data == if k < |chunks| then chunks[k] else null
        invariant totlen == |Flat(contents[..k])|
        decreases |chunks| - k
      {
        Visit(k);
        totlen := totlen + (data.cp - data.sp);
        data := data.next;
        k := k + 1;
      }
      s := new byte[totlen + 1];
      var p: nat := 0;
      data := head;
      k := 0;
      while data != null
        invariant k <= |chunks| && data == (if k < |chunks| then chunks[k] else null)
        invariant fresh(s) && s.Length == |Pending()| + 1 && p == |Flat(contents[..k])| <= |Pending()|
        invariant s[..p] == Flat(contents[..k])
        decreases |chunks| - k
      {
        Visit(k);
        PrefixFits(contents, k + 1);
        p := data.CopyTo(s, p);
        data := data.next;
        k := k + 1;
      }
      s[p] := 0;
      assert s[..] == s[..p] + [0];
    }

    /** buffer_empty */
    method BufferEmpty() returns (empty: bool)
      requires Valid()
      ensures empty <==> Pending() == []
    {
      Walked();
      empty := head == null;
    }

    /** The chunks handed to writev. */
    method GatherChunks() returns (offer: seq<byte>)
      requires Valid()
      ensures offer == Offer(contents)
    {
      hide Shape, Links, Apart, Chunk.Holds, Flat;
      Walked();
      FlatEmpty();
      offer := [];
      var d := head;
      var iovcnt: nat, nbyte: nat := 0, 0;
      while d != null && iovcnt < MAX_CHUNKS && nbyte < MAX_FLUSH
        invariant iovcnt <= |chunks| && d == if iovcnt < |chunks| then chunks[iovcnt] else null
        invariant offer == Flat(contents[..iovcnt]) && nbyte == |offer|
        invariant iovcnt + Gather(contents[iovcnt..], iovcnt, nbyte) == Gather(contents, 0, 0)
        decreases |chunks| - iovcnt
      {
        Visit(iovcnt);
        assert contents[iovcnt..][1..] == contents[iovcnt + 1..];
        offer := offer + d.data[d.sp..d.cp];
        nbyte := nbyte + (d.cp - d.sp);
        d := d.next;
        iovcnt := iovcnt + 1;
      }
      Walked();
    }

    /** The first chunk is freed. */
    method DropFirst()
      requires Valid() && chunks != []
      modifies this`head, this`tail, this`chunks, this`contents
      ensures Valid() && contents == old(contents)[1..] && chunks == old(chunks)[1..]
    {
      var d := head;
      assert d == chunks[0] && d.next == if 1 < |chunks| then chunks[1] else null;
      head := d.next;
      if head == null {
        tail := null;
      }
      chunks, contents := chunks[1..], contents[1..];
      LinksDrop(head, tail, old(chunks));
    }

    /** Part of the first chunk is written. */
    method Advance(d: Chunk, n: nat)
      requires Valid() && chunks != [] && d == chunks[0] && n < |contents[0]|
      modifies this`contents, d`sp
      ensures Valid() && contents == old(contents)[0 := old(contents)[0][n..]]
    {
      hide Links;
      assert d.Holds(size, contents[0]);
      assert forall i :: 0 < i < |chunks| ==> chunks[i] != d;
      d.sp := d.sp + n;
      contents := contents[0 := contents[0][n..]];
      assert d.data[d.sp..d.cp] == contents[0];
    }

    /** The second half of buffer_flush_available: the bytes written leave the queue. Having been offered, they
        are there: the branch that reports a corrupted queue is not taken. */
    method Release(written0: nat) returns (status: Status)
      requires Valid() && written0 <= |Pending()|
      modifies repr
      ensures Valid() && repr == old(repr)
      ensures Pending() == old(Pending())[written0..]
      ensures status == if Pending() == [] then BUFFER_EMPTY else BUFFER_PENDING
    {
      hide Valid, Shape, Links, Apart, Chunk.Holds, Flat;
      ghost var all := Pending();
      var written: nat := written0;
      ghost var off: nat := 0;
      while written > 0
        invariant Valid() && repr == old(repr) && off + written == written0 <= |all|
        invariant Pending() == all[off..]
        decreases written
      {
        Chunky();
        var d := head;
        ghost var c := contents;
        PastFirst(c, all, off, if written < |c[0]| then written else |c[0]|);
        if written < d.cp - d.sp {
          Advance(d, written);
          Chunky();
          return BUFFER_PENDING;
        }
        written := written - (d.cp - d.sp);
        DropFirst();
        off := off + |c[0]|;
      }
      Chunky();
      status := if head != null then BUFFER_PENDING else BUFFER_EMPTY;
    }

    /** buffer_flush_available: one writev; what it takes leaves the front of the queue. */
    method BufferFlushAvailable(kernel: seq<byte> -> Kernel) returns (status: Status, delivered: seq<byte>)
      requires Valid() && TakesAPart(kernel)
      modifies repr
      ensures Valid() && repr == old(repr)
      ensures var offer := Offer(old(contents));
              if offer != [] && kernel(offer).Wrote? then
                && kernel(offer).n <= |old(Pending())|
                && delivered == old(Pending())[..kernel(offer).n]
                && Pending() == old(Pending())[kernel(offer).n..]
              else delivered == [] && contents == old(contents)
      ensures status == (if Pending() == [] then BUFFER_EMPTY
                         else if kernel(Offer(old(contents))).Failed? then BUFFER_ERROR else BUFFER_PENDING)
    {
      hide Valid, Shape, Links, Apart, Chunk.Holds, Flat, Offer;
      Chunky();
      OfferIsAPart(contents);
      var offer := GatherChunks();
      if |offer| == 0 {
        return BUFFER_EMPTY, [];
      }
      match kernel(offer)
      case Retry => return BUFFER_PENDING, [];
      case Failed => return BUFFER_ERROR, [];
      case Wrote(written) =>
        delivered := offer[..written];
        ghost var all := Pending();
        assert all == all[..written] + all[written..] && all[..written] == delivered;
        status := Release(written);
    }

    /** buffer_write: straight to the kernel when nothing is queued; what it does not take is queued. */
    method BufferWrite(kernel: seq<byte> -> Kernel, p: seq<byte>) returns (status: Status, delivered: seq<byte>)
      requires Valid() && TakesAPart(kernel)
      modifies repr
      ensures Valid() && fresh(repr - old(repr)) && repr >= old(repr)
      ensures status == BUFFER_ERROR <==> old(Pending()) == [] && kernel(p).Failed?
      ensures status == BUFFER_ERROR ==> delivered == [] && contents == old(contents)
      ensures status != BUFFER_ERROR ==>
                && delivered + Pending() == old(Pending()) + p
                && delivered == (if old(Pending()) == [] && kernel(p).Wrote? then p[..kernel(p).n] else [])
                && status == if Pending() == [] then BUFFER_EMPTY else BUFFER_PENDING
    {
      hide Valid, Shape, Links, Apart, Chunk.Holds, Flat;
      Chunky();
      var nbytes: nat := 0;
      if head == null {
        match kernel(p)
        case Retry =>
        case Failed => return BUFFER_ERROR, [];
        case Wrote(n) => nbytes := n;
      }
      delivered := p[..nbytes];
      assert p == p[..nbytes] + p[nbytes..];
      if nbytes < |p| {
        BufferPut(p[nbytes..]);
      }
      Chunky();
      status := if head != null then BUFFER_PENDING else BUFFER_EMPTY;
    }

    /** Over every run the kernel is called exactly where there is something to write, with the bytes that come next,
        and what it reported as taken, call by call, followed by what is pending is what was submitted, in order. At
        a fatal error the run stops, and this held up to it. */
    method Run(ops: seq<Op>) returns (delivered: seq<byte>, done: nat, ghost log: seq<Option<Syscall>>)
      requires Valid()
      requires forall i :: 0 <= i < |ops| ==> ops[i].Put? || TakesAPart(ops[i].kernel)
      modifies repr
      ensures Valid() && done <= |ops|
      ensures |log| == (if done < |ops| then done + 1 else done) && Logged(old(Pending()), ops, log)
      ensures done < |ops| ==> log[done].Some? && log[done].value.answer.Failed?
      ensures delivered == Taken(log)
      ensures delivered + Pending() == old(Pending()) + Submitted(ops[..done])
    {
      hide Valid, Flat, TakesAPart, Submitted, Given, Pending, Logged, Taken, CallOk;
      SubmittedNothing(ops);
      LogStarts(Pending(), ops);
      delivered, done, log := [], 0, [];
      while done < |ops|
        invariant Valid() && fresh(repr - old(repr)) && done <= |ops| && |log| == done
        invariant Logged(old(Pending()), ops, log) && delivered == Taken(log)
        invariant delivered + Pending() == old(Pending()) + Submitted(ops[..done])
        decreases |ops| - done
      {
        SubmittedSnoc(ops, done);
        ghost var queued := Pending();
        var status, part;
        ghost var call;
        status, part, call := Perform(ops[done]);
        LogGrows(old(Pending()), ops, log, call, delivered, queued);
        log := log + [call];
        ghost var given := if status == BUFFER_ERROR then [] else Given(ops[done]);
        Reorder(delivered, part, Pending(), queued, given);
        Associates(old(Pending()), Submitted(ops[..done]), given);
        delivered := delivered + part;
        if status == BUFFER_ERROR {
          return;
        }
        done := done + 1;
      }
    }

    method Perform(op: Op) returns (status: Status, part: seq<byte>, ghost call: Option<Syscall>)
      requires Valid() && (op.Put? || TakesAPart(op.kernel))
      modifies repr
      ensures Valid() && fresh(repr - old(repr))
      ensures part + Pending() == old(Pending()) + if status == BUFFER_ERROR then [] else Given(op)
      ensures CallOk(op, old(Pending()), call) && part == TakenNow(call)
      ensures status == BUFFER_ERROR <==> call.Some? && call.value.answer.Failed?
    {
      hide Valid, Flat, TakesAPart, Offer;
      match op
      case Put(p) =>
        BufferPut(p);
        status, part, call := BUFFER_PENDING, [], None;
      case Write(kernel, p) =>
        call := if Pending() == [] then Some(Syscall(p, kernel(p))) else None;
        TakesItsPart(kernel, p);
        status, part := BufferWrite(kernel, p);
      case Flush(kernel) => status, part, call := PerformFlush(kernel);
    }

    method PerformFlush(kernel: seq<byte> -> Kernel)
      returns (status: Status, part: seq<byte>, ghost call: Option<Syscall>)
      requires Valid() && TakesAPart(kernel)
      modifies repr
      ensures Valid() && repr == old(repr) && part + Pending() == old(Pending())
      ensures CallOk(Flush(kernel), old(Pending()), call) && part == TakenNow(call)
      ensures status == BUFFER_ERROR <==> call.Some? && call.value.answer.Failed?
    {
      hide Valid, Flat, TakesAPart, Offer;
      Chunky();
      OfferIsAPart(contents);
      ghost var all, offer := Pending(), Offer(contents);
      call := if all == [] then None else Some(Syscall(offer, kernel(offer)));
      TakesItsPart(kernel, offer);
      if kernel(offer).Wrote? {
        FrontOfFront(all, |offer|, kernel(offer).n);
      }
      status, part := BufferFlushAvailable(kernel);
    }

    /** No chunk is empty and all but the last are filled to the end; so the head tells whether anything is
        pending. */
    lemma Chunky()
      requires Valid()
      ensures |chunks| == |contents| && this in repr
      ensures chunks == [] <==> head == null
      ensures Pending() == [] <==> chunks == []
      ensures forall i :: 0 <= i < |contents| ==> 0 < |contents[i]| <= size
      ensures forall i :: 0 <= i < |chunks| - 1 ==> chunks[i].cp == size
      ensures chunks != [] ==> head == chunks[0] && head in repr && head.cp - head.sp == |contents[0]|
    {
      forall i | 0 <= i < |contents| ensures 0 < |contents[i]| <= size {
        Visit(i);
        assert chunks[i].Holds(size, contents[i]);
      }
      if chunks != [] {
        assert Flat(contents) == contents[0] + Flat(contents[1..]);
      }
    }
  }

  lemma PastFirst(c: seq<seq<byte>>, all: seq<byte>, off: nat, n: nat)
    requires off < |all| && Flat(c) == all[off..]
    ensures c != []
    ensures n <= |c[0]| ==> off + n <= |all| && Flat(c[0 := c[0][n..]]) == all[off + n..]
    ensures off + |c[0]| <= |all| && Flat(c[1..]) == all[off + |c[0]|..]
  {
    assert Flat(c) == c[0] + Flat(c[1..]);
    assert all[off + |c[0]|..] == all[off..][|c[0]|..];
    if n <= |c[0]| {
      FlatFirst(c, n);
      assert all[off + n..] == all[off..][n..];
    }
  }

  function Gather(contents: seq<seq<byte>>, iovcnt: nat, nbyte: nat): (k: nat)
    ensures k <= |contents|
  {
    if contents == [] || iovcnt >= MAX_CHUNKS || nbyte >= MAX_FLUSH then 0
    else 1 + Gather(contents[1..], iovcnt + 1, nbyte + |contents[0]|)
  }

  /** What one call of writev is offered. */
  function Offer(contents: seq<seq<byte>>): seq<byte> {
    Flat(contents[..Gather(contents, 0, 0)])
  }

  datatype Op = Put(data: seq<byte>) | Write(kernel: seq<byte> -> Kernel, data: seq<byte>)
      | Flush(kernel: seq<byte> -> Kernel)

  /** One call of write or writev: the bytes offered and what the kernel reports. */
  datatype Syscall = Syscall(offer: seq<byte>, answer: Kernel)

  /** The call an operation makes while these bytes are pending: a write offers its data, and only when nothing is
      queued; a flush offers some of the first bytes pending. */
  predicate CallOk(op: Op, pending: seq<byte>, call: Option<Syscall>) {
    match op
    case Put(_) => call.None?
    case Write(kernel, p) => call == if pending == [] then Some(Syscall(p, kernel(p))) else None
    case Flush(kernel) =>
      if pending == [] then call.None?
      else call.Some? && [] < call.value.offer <= pending && call.value.answer == kernel(call.value.offer)
  }

  function TakenNow(call: Option<Syscall>): seq<byte> {
    if call.Some? && call.value.answer.Wrote? && call.value.answer.n <= |call.value.offer|
    then call.value.offer[..call.value.answer.n] else []
  }

  /** What the kernel reported as taken, call by call. */
  function Taken(log: seq<Option<Syscall>>): seq<byte> {
    if log == [] then [] else Taken(log[..|log| - 1]) + TakenNow(log[|log| - 1])
  }

  /** Operation i made the call it had to, given what was submitted and taken before it. */
  ghost predicate LoggedAt(start: seq<byte>, ops: seq<Op>, log: seq<Option<Syscall>>, i: nat)
    requires i < |log| && i < |ops|
  {
    var all, out := start + Submitted(ops[..i]), Taken(log[..i]);
    out <= all && CallOk(ops[i], all[|out|..], log[i])
  }

  ghost predicate Logged(start: seq<byte>, ops: seq<Op>, log: seq<Option<Syscall>>) {
    |log| <= |ops| && forall i :: 0 <= i < |log| ==> LoggedAt(start, ops, log, i)
  }

  lemma LogStarts(start: seq<byte>, ops: seq<Op>)
    ensures Logged(start, ops, []) && Taken([]) == []
  {
  }

  lemma TakenSnoc(log: seq<Option<Syscall>>, call: Option<Syscall>)
    ensures Taken(log + [call]) == Taken(log) + TakenNow(call)
  {
    assert (log + [call])[..|log|] == log;
  }

  lemma SameLogAt(start: seq<byte>, ops: seq<Op>, log: seq<Option<Syscall>>, call: Option<Syscall>, i: nat)
    requires i < |log| && i < |ops| && LoggedAt(start, ops, log, i)
    ensures LoggedAt(start, ops, log + [call], i)
  {
    hide Submitted, CallOk, Taken;
    assert (log + [call])[..i] == log[..i];
  }

  lemma LogGrows(start: seq<byte>, ops: seq<Op>, log: seq<Option<Syscall>>, call: Option<Syscall>, out: seq<byte>,
                 pending: seq<byte>)
    requires Logged(start, ops, log) && |log| < |ops| && out == Taken(log)
    requires out + pending == start + Submitted(ops[..|log|]) && CallOk(ops[|log|], pending, call)
    ensures Logged(start, ops, log + [call]) && Taken(log + [call]) == Taken(log) + TakenNow(call)
  {
    hide LoggedAt, Submitted, CallOk, Taken, TakenNow;
    TakenSnoc(log, call);
    LogLast(start, ops, log, call, out, pending);
    forall i | 0 <= i < |log + [call]| ensures LoggedAt(start, ops, log + [call], i) {
      if i < |log| {
        SameLogAt(start, ops, log, call, i);
      }
    }
  }

  lemma LogLast(start: seq<byte>, ops: seq<Op>, log: seq<Option<Syscall>>, call: Option<Syscall>, out: seq<byte>,
                pending: seq<byte>)
    requires |log| < |ops| && out == Taken(log)
    requires out + pending == start + Submitted(ops[..|log|]) && CallOk(ops[|log|], pending, call)
    ensures LoggedAt(start, ops, log + [call], |log|)
  {
    hide Submitted, CallOk, Taken;
    assert (log + [call])[..|log|] == log;
    assert (out + pending)[|out|..] == pending;
  }

  lemma TakesItsPart(kernel: seq<byte> -> Kernel, s: seq<byte>)
    requires TakesAPart(kernel)
    ensures kernel(s).Wrote? ==> kernel(s).n <= |s|
  {
  }

  lemma FrontOfFront(all: seq<byte>, k: nat, n: nat)
    requires n <= k <= |all|
    ensures all[..k][..n] == all[..n] && all[..n] + all[n..] == all
  {
  }

  function Submitted(ops: seq<Op>): seq<byte> {
    if ops == [] then []
    else Submitted(ops[..|ops| - 1]) + Given(ops[|ops| - 1])
  }

  lemma SubmittedNothing(ops: seq<Op>)
    ensures Submitted(ops[..0]) == []
  {
  }

  lemma SubmittedSnoc(ops: seq<Op>, k: nat)
    requires k < |ops|
    ensures Submitted(ops[..k + 1]) == Submitted(ops[..k]) + Given(ops[k])
  {
    assert ops[..k + 1][..k] == ops[..k];
  }

  /** The bytes a call submits. */
  function Given(op: Op): seq<byte> {
    if op.Flush? then [] else op.data
  }

  lemma Reorder(was: seq<byte>, part: seq<byte>, now: seq<byte>, queued: seq<byte>, p: seq<byte>)
    requires part + now == queued + p
    ensures (was + part) + now == (was + queued) + p
  {
    assert (was + part) + now == was + (part + now);
    assert (was + queued) + p == was + (queued + p);
  }

  /** A call of writev is offered the front of the queue: something if anything is pending, from at most 16
      chunks, and less than 131072 bytes before its last chunk. */
  lemma OfferIsAPart(contents: seq<seq<byte>>)
    ensures |Offer(contents)| <= |Flat(contents)| && Offer(contents) == Flat(contents)[..|Offer(contents)|]
    ensures contents != [] && contents[0] != [] ==> Offer(contents) != []
    ensures var k := Gather(contents, 0, 0);
            && k <= MAX_CHUNKS
            && (k > 0 ==> |Flat(contents[..k - 1])| < MAX_FLUSH)
            && (k < |contents| ==> k == MAX_CHUNKS || |Offer(contents)| >= MAX_FLUSH)
  {
    hide Flat, Gather;
    var k := Gather(contents, 0, 0);
    FlatSplits(contents[..k], contents[k..]);
    assert contents == contents[..k] + contents[k..];
    GatherBounds(contents, 0, 0);
    if contents != [] && contents[0] != [] {
      SomethingGathered(contents);
    }
  }

  lemma SomethingGathered(contents: seq<seq<byte>>)
    requires contents != [] && contents[0] != []
    ensures Offer(contents) != []
  {
    assert contents[..Gather(contents, 0, 0)][0] == contents[0];
  }

  lemma {:induction false} FlatSplits(a: seq<seq<byte>>, b: seq<seq<byte>>)
    ensures Flat(a + b) == Flat(a) + Flat(b)
  {
    if a == [] {
      assert a + b == b;
    } else {
      FlatSplits(a[1..], b);
      assert (a + b)[1..] == a[1..] + b && (a + b)[0] == a[0];
      Associates(a[0], Flat(a[1..]), Flat(b));
    }
  }

  lemma {:induction false} GatherBounds(c: seq<seq<byte>>, iovcnt: nat, nbyte: nat)
    requires iovcnt <= MAX_CHUNKS
    ensures var k := Gather(c, iovcnt, nbyte);
            && iovcnt + k <= MAX_CHUNKS
            && (k > 0 ==> nbyte + |Flat(c[..k - 1])| < MAX_FLUSH)
            && (k < |c| ==> iovcnt + k == MAX_CHUNKS || nbyte + |Flat(c[..k])| >= MAX_FLUSH)
    decreases |c|
  {
    var k := Gather(c, iovcnt, nbyte);
    if k > 0 {
      GatherBounds(c[1..], iovcnt + 1, nbyte + |c[0]|);
      assert c[..k][1..] == c[1..][..k - 1];
      if k > 1 {
        assert c[..k - 1][1..] == c[1..][..k - 2];
      }
    } else {
      assert c[..0] == [];
    }
  }

  lemma LinksDrop(head: Chunk?, tail: Chunk?, chunks: seq<Chunk>)
    requires chunks != [] && head == chunks[0].next
    requires Links(chunks[0], chunks[|chunks| - 1], chunks)
    requires tail == if |chunks| == 1 then null else chunks[|chunks| - 1]
    ensures Links(head, tail, chunks[1..])
  {
    var d := chunks[1..];
    forall i {:trigger d[i].next} | 0 <= i < |d| ensures d[i].next == if i + 1 < |d| then d[i + 1] else null {
      assert d[i] == chunks[i + 1];
    }
  }

  lemma FlatFirst(c: seq<seq<byte>>, n: nat)
    requires c != [] && n <= |c[0]|
    ensures Flat(c[0 := c[0][n..]]) == Flat(c)[n..]
  {
    assert c[0 := c[0][n..]][1..] == c[1..];
  }

  lemma FlatEmpty()
    ensures Flat([]) == []
  {
  }

  lemma {:induction false} PrefixFits(c: seq<seq<byte>>, k: nat)
    requires k <= |c|
    ensures |Flat(c[..k])| <= |Flat(c)|
  {
    if k > 0 {
      PrefixFits(c[1..], k - 1);
      assert c[..k][1..] == c[1..][..k - 1];
    }
  }
}
