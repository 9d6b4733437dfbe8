/**
 * The receiving side of an established TCP connection (tcp.c; section 3.9 of RFC 793): segments of a byte stream arrive
 * late, twice, overlapping and out of order, are queued by sequence number, and go into the receive buffer in order.
 * Sequence numbers do not wrap here.
 */
module TcpReassembly {
  import opened Common
  import opened RingBuffer

  datatype Segment = Segment(start: nat, data: seq<byte>) {
    function End(): nat {
      start + |data|
    }
  }

  /** The receiver: the next sequence number, the segments queued, and the receive buffer. */
  datatype Receiver = Receiver(next: nat, queue: seq<Segment>, ring: Ring)

  ghost predicate Sorted(queue: seq<Segment>) {
    forall i, j :: 0 <= i < j < |queue| ==> queue[i].start <= queue[j].start
  }

  // ----- the operations -----

  /** tcp_queue_packet's search: the first segment that starts after `start`. */
  function PlaceFrom(queue: seq<Segment>, start: nat, i: nat): (k: nat)
    requires i <= |queue|
    ensures i <= k <= |queue| && (k < |queue| ==> start < queue[k].start)
    ensures forall j :: i <= j < k ==> queue[j].start <= start
    decreases |queue| - i
  {
    if i == |queue| || start < queue[i].start then i else PlaceFrom(queue, start, i + 1)
  }

  function Queued(queue: seq<Segment>, s: Segment): seq<Segment> {
    var k := PlaceFrom(queue, s.start, 0);
    queue[..k] + [s] + queue[k..]
  }

  /** The part of a segment not received yet. */
  function Fresh(r: Receiver, s: Segment): seq<byte>
    requires s.start <= r.next < s.End()
  {
    s.data[r.next - s.start..]
  }

  /** As much of `bytes` as the buffer has room for. */
  function Stored(r: Receiver, bytes: seq<byte>): (r': Receiver)
    requires r.ring.Ok()
    ensures r'.ring.Ok() && r'.ring.max == r.ring.max && r'.queue == r.queue
  {
    var (ring, n) := PutBytes(r.ring, bytes, 0);
    r.(ring := ring, next := r.next + n)
  }

  /** tcp_check_waiting_packet: put the segments that continue the stream into the buffer; false if that filled it. */
  function Drain(r: Receiver): (d: (Receiver, bool))
    requires r.ring.Ok()
    ensures d.0.ring.Ok()
    decreases |r.queue|
  {
    if r.queue == [] || r.next < r.queue[0].start then (r, true)
    else
      var s := r.queue[0];
      if s.End() > r.next then
        var r1 := Stored(r, Fresh(r, s));
        if r1.next < s.End() then (r1, false) else Drain(r1.(queue := r.queue[1..]))
      else Drain(r.(queue := r.queue[1..]))
  }

  /** tcp_forward_established for a segment with data: the receiver, and the number acknowledged, if any. */
  function Arrive(r: Receiver, s: Segment): (a: (Receiver, Option<nat>))
    requires r.ring.Ok()
    ensures a.0.ring.Ok()
  {
    var (r1, all) := Drain(r.(queue := Queued(r.queue, s)));
    (r1, if all then Some(r1.next) else None)
  }

  /** tcp_endpoint_recv of up to `n` bytes: whether there are any is not asked. */
  function Recv(r: Receiver, n: nat): (v: (Receiver, seq<byte>))
    requires r.ring.Ok()
    ensures v.0.ring.Ok()
  {
    var (ring, bytes) := GetIter(r.ring, n);
    (r.(ring := ring), bytes)
  }

  // ----- the stream -----

  /** The segment carries the bytes of the stream at its place; `base` is the number of the stream's first byte. */
  predicate OfStream(s: Segment, base: nat, stream: seq<byte>) {
    base <= s.start && s.End() <= base + |stream| && s.data == stream[s.start - base..s.End() - base]
  }

  /** What is known of a run: the stream, the segments that have arrived, and the bytes the application has taken. */
  datatype History = History(base: nat, stream: seq<byte>, arrived: set<Segment>, taken: seq<byte>)

  /** A segment that arrived is queued, or was received in full. */
  ghost predicate Kept(r: Receiver, s: Segment) {
    s in r.queue || s.End() <= r.next
  }

  /** What holds whatever happens: the queue is in order and part of the stream, and nothing that arrived is lost. */
  ghost predicate Known(r: Receiver, h: History) {
    && r.ring.Ok() && Sorted(r.queue)
    && h.base <= r.next <= h.base + |h.stream|
    && (forall i :: 0 <= i < |r.queue| ==> OfStream(r.queue[i], h.base, h.stream))
    && (forall s :: s in h.arrived ==> Kept(r, s))
  }

  /** What was taken and what is in the buffer are the stream up to the next number expected, with no gap and no
      repeat. */
  ghost predicate Exact(r: Receiver, h: History)
    requires Known(r, h)
  {
    h.taken + r.ring.Contents() == h.stream[..r.next - h.base]
  }

  /** How many bytes more were taken and are in the buffer than were received. */
  function Excess(r: Receiver, h: History): int {
    |h.taken| + r.ring.Used() - (r.next - h.base)
  }

  /** The step to `r'` and `h'` keeps what holds, and neither loses nor makes up a byte. */
  ghost predicate Goes(r: Receiver, h: History, r': Receiver, h': History)
    requires Known(r, h)
  {
    && Known(r', h') && r.next <= r'.next && r'.ring.max == r.ring.max && h'.base == h.base && h'.stream == h.stream
    && Excess(r', h') == Excess(r, h) && (Exact(r, h) ==> Exact(r', h'))
  }

  lemma QueuedAt(queue: seq<Segment>, s: Segment, i: nat)
    requires i <= |queue|
    ensures var k := PlaceFrom(queue, s.start, 0);
            |Queued(queue, s)| == |queue| + 1 && Queued(queue, s)[i] == if i < k then queue[i] else if i == k then s
            else queue[i - 1]
  {
  }

  lemma QueuedSorted(queue: seq<Segment>, s: Segment)
    requires Sorted(queue)
    ensures Sorted(Queued(queue, s))
  {
    var k, q := PlaceFrom(queue, s.start, 0), Queued(queue, s);
    forall i, j | 0 <= i < j < |q|
      ensures q[i].start <= q[j].start
    {
      QueuedAt(queue, s, i);
      QueuedAt(queue, s, j);
      assert i == k ==> queue[k].start <= queue[j - 1].start;
    }
  }

  lemma QueuedHas(queue: seq<Segment>, s: Segment, t: Segment)
    ensures t in Queued(queue, s) <==> t == s || t in queue
  {
    var k := PlaceFrom(queue, s.start, 0);
    assert queue == queue[..k] + queue[k..];
  }

  lemma QueuedInv(r: Receiver, h: History, s: Segment, r': Receiver, h': History)
    requires Known(r, h) && OfStream(s, h.base, h.stream)
    requires r' == r.(queue := Queued(r.queue, s)) && h' == h.(arrived := h.arrived + {s})
    ensures Goes(r, h, r', h')
  {
    QueuedSorted(r.queue, s);
    forall i | 0 <= i < |r'.queue|
      ensures OfStream(r'.queue[i], h.base, h.stream)
    {
      QueuedAt(r.queue, s, i);
    }
    forall t | t in h'.arrived
      ensures Kept(r', t)
    {
      QueuedHas(r.queue, s, t);
      assert t != s ==> Kept(r, t);
    }
  }

  /** The head of the queue continues the stream. */
  lemma StoredInv(r: Receiver, h: History, bytes: seq<byte>, r': Receiver)
    requires Known(r, h) && r.next + |bytes| <= h.base + |h.stream| && r' == Stored(r, bytes)
    requires bytes == h.stream[r.next - h.base..r.next + |bytes| - h.base]
    ensures Goes(r, h, r', h)
    ensures r'.next < r.next + |bytes| ==> r'.ring.Free() == 0
  {
    PutAppends(r.ring, bytes);
    Spaces(r.ring);
    Spaces(r'.ring);
    var n := r'.next - r.next;
    var a := r.next - h.base;
    assert h.stream[..a] + bytes[..n] == h.stream[..a + n];
    assert h.taken + r'.ring.Contents() == h.taken + r.ring.Contents() + bytes[..n];
    forall s | s in h.arrived
      ensures Kept(r', s)
    {
      assert Kept(r, s);
    }
  }

  lemma FreshOfStream(r: Receiver, h: History, s: Segment)
    requires OfStream(s, h.base, h.stream) && s.start <= r.next < s.End() && h.base <= r.next
    ensures var bytes := Fresh(r, s);
            r.next + |bytes| == s.End() && bytes == h.stream[r.next - h.base..s.End() - h.base]
  {
    var a, b, c := s.start - h.base, r.next - h.base, s.End() - h.base;
    assert h.stream[a..c][b - a..] == h.stream[b..c];
  }

  /** The head of the queue, received in full, is dropped. */
  lemma DroppedInv(r: Receiver, h: History, r': Receiver)
    requires Known(r, h) && r.queue != [] && r.queue[0].End() <= r.next && r' == r.(queue := r.queue[1..])
    ensures Goes(r, h, r', h)
  {
    forall s | s in h.arrived
      ensures Kept(r', s)
    {
      assert Kept(r, s);
      if s in r.queue {
        var i :| 0 <= i < |r.queue| && r.queue[i] == s;
        assert i > 0 ==> r'.queue[i - 1] == s;
      }
    }
  }

  /** Draining keeps what is known, and if it is not stopped by a full buffer leaves no segment that could be
      delivered. */
  lemma {:induction false} DrainInv(r: Receiver, h: History, r': Receiver, all: bool)
    requires Known(r, h) && (r', all) == Drain(r)
    ensures Goes(r, h, r', h)
    ensures all ==> forall i :: 0 <= i < |r'.queue| ==> r'.next < r'.queue[i].start
    ensures !all ==> r'.ring.Free() == 0
    decreases |r.queue|
  {
    if r.queue != [] && r.queue[0].start <= r.next {
      var s := r.queue[0];
      var r1 := r;
      if s.End() > r.next {
        FreshOfStream(r, h, s);
        r1 := Stored(r, Fresh(r, s));
        StoredInv(r, h, Fresh(r, s), r1);
      }
      if s.End() <= r1.next {
        DroppedInv(r1, h, r1.(queue := r.queue[1..]));
        DrainInv(r1.(queue := r.queue[1..]), h, r', all);
      }
    }
  }

  /**
   A segment of the stream, however often and in whatever order it comes, adds
   exactly what continues the stream; what is acknowledged has been stored, and
   no byte that has arrived is the next one expected.
   */
  lemma ArriveInv(r: Receiver, h: History, s: Segment, r': Receiver, ack: Option<nat>)
    requires Known(r, h) && OfStream(s, h.base, h.stream) && (r', ack) == Arrive(r, s)
    ensures var h' := h.(arrived := h.arrived + {s});
            && Goes(r, h, r', h')
            && (ack.Some? ==> ack.value == r'.next && forall t :: t in h'.arrived ==> !(t.start <= r'.next < t.End()))
            && (ack.None? ==> r'.ring.Free() == 0)
  {
    var r1, h' := r.(queue := Queued(r.queue, s)), h.(arrived := h.arrived + {s});
    QueuedInv(r, h, s, r1, h');
    var all := Drain(r1).1;
    DrainInv(r1, h', r', all);
    forall t | t in h'.arrived && ack.Some?
      ensures !(t.start <= r'.next < t.End())
    {
      assert Kept(r', t);
    }
  }

  /** A read for which there is room but nothing to read. */
  predicate Stale(r: Receiver, n: nat) {
    n > 0 && r.ring.inAt == r.ring.outAt
  }

  /** A read continues what was read before, unless it is stale: then the bytes it gives and leaves are a whole
      buffer too many. */
  lemma RecvInv(r: Receiver, h: History, n: nat, r': Receiver, bytes: seq<byte>, h': History)
    requires Known(r, h) && (r', bytes) == Recv(r, n) && h' == h.(taken := h.taken + bytes)
    ensures Known(r', h') && r'.ring.max == r.ring.max
    ensures if Stale(r, n) then Excess(r', h') == Excess(r, h) + r.ring.max else Goes(r, h, r', h')
  {
    forall s | s in h.arrived
      ensures Kept(r', s)
    {
      assert Kept(r, s);
    }
    if Stale(r, n) {
      StaleRead(r.ring, n, r'.ring, bytes);
    } else {
      GetIterTakes(r.ring, n, r'.ring, bytes);
      assert h.taken + bytes + r'.ring.Contents() == h.taken + r.ring.Contents();
    }
  }

  // ----- runs -----

  datatype Op = Comes(s: Segment) | Reads(n: nat)

  datatype Reply = Acked(ack: Option<nat>) | Read(bytes: seq<byte>)

  function Step(r: Receiver, op: Op): (v: (Receiver, Reply))
    requires r.ring.Ok()
    ensures v.0.ring.Ok()
  {
    match op
    case Comes(s) =>
      var (r', ack) := Arrive(r, s);
      (r', Acked(ack))
    case Reads(n) =>
      var (r', bytes) := Recv(r, n);
      (r', Read(bytes))
  }

  function Noted(h: History, op: Op, reply: Reply): History {
    match op
    case Comes(s) => h.(arrived := h.arrived + {s})
    case Reads(_) => if reply.Read? then h.(taken := h.taken + reply.bytes) else h
  }

  /** Any order of segments of the stream, with repeats and overlaps, and of reads. */
  predicate Legal(h: History, ops: seq<Op>) {
    forall i :: 0 <= i < |ops| && ops[i].Comes? ==> OfStream(ops[i].s, h.base, h.stream)
  }

  function After(r: Receiver, h: History, ops: seq<Op>): (Receiver, History)
    requires r.ring.Ok()
    decreases |ops|
  {
    if ops == [] then (r, h)
    else
      var (r1, reply) := Step(r, ops[0]);
      After(r1, Noted(h, ops[0], reply), ops[1..])
  }

  /** Whether a step is a read for which there is room but nothing to read. */
  predicate StaleStep(r: Receiver, op: Op) {
    op.Reads? && Stale(r, op.n)
  }

  /** No read of the run finds the buffer empty. */
  predicate NeverStale(r: Receiver, ops: seq<Op>)
    requires r.ring.Ok()
    decreases |ops|
  {
    ops == [] || (!StaleStep(r, ops[0]) && NeverStale(Step(r, ops[0]).0, ops[1..]))
  }

  /** The size of the buffer for each read that does. */
  function StaleBytes(r: Receiver, ops: seq<Op>): nat
    requires r.ring.Ok()
    decreases |ops|
  {
    if ops == [] then 0
    else (if StaleStep(r, ops[0]) then r.ring.max else 0) + StaleBytes(Step(r, ops[0]).0, ops[1..])
  }

  lemma {:induction false} StaleBytesIff(r: Receiver, ops: seq<Op>)
    requires r.ring.Ok()
    ensures StaleBytes(r, ops) == 0 <==> NeverStale(r, ops)
    decreases |ops|
  {
    if ops != [] {
      StaleBytesIff(Step(r, ops[0]).0, ops[1..]);
    }
  }

  lemma StepInv(r: Receiver, h: History, op: Op, r': Receiver, h': History)
    requires Known(r, h) && (op.Comes? ==> OfStream(op.s, h.base, h.stream))
    requires r' == Step(r, op).0 && h' == Noted(h, op, Step(r, op).1)
    ensures Known(r', h') && h'.base == h.base && h'.stream == h.stream
    ensures if StaleStep(r, op) then Excess(r', h') == Excess(r, h) + r.ring.max else Goes(r, h, r', h')
  {
    match op
    case Comes(s) => ArriveInv(r, h, s, r', Step(r, op).1.ack);
    case Reads(n) => RecvInv(r, h, n, r', Step(r, op).1.bytes, h');
  }

  /** Over every run the books are out by the size of the buffer for each stale read, and by nothing else. */
  lemma {:induction false} RunInv(r: Receiver, h: History, ops: seq<Op>, r': Receiver, h': History)
    requires Known(r, h) && Legal(h, ops) && (r', h') == After(r, h, ops)
    ensures Known(r', h') && h'.base == h.base && h'.stream == h.stream
    ensures Excess(r', h') == Excess(r, h) + StaleBytes(r, ops)
    ensures Exact(r, h) && NeverStale(r, ops) ==> Exact(r', h')
    decreases |ops|
  {
    if ops != [] {
      var (r1, reply) := Step(r, ops[0]);
      var h1 := Noted(h, ops[0], reply);
      StepInv(r, h, ops[0], r1, h1);
      RunInv(r1, h1, ops[1..], r', h');
    }
  }

  lemma {:induction false} RunArrived(r: Receiver, h: History, ops: seq<Op>, s: Segment)
    requires r.ring.Ok()
    ensures s in After(r, h, ops).1.arrived <==> s in h.arrived || Comes(s) in ops
    decreases |ops|
  {
    if ops != [] {
      var (r1, reply) := Step(r, ops[0]);
      RunArrived(r1, Noted(h, ops[0], reply), ops[1..], s);
      assert Comes(s) in ops <==> ops[0] == Comes(s) || Comes(s) in ops[1..];
    }
  }

  /**
   Whatever arrives, and however it is read: what the application has read and
   the buffer are the stream up to the next number expected, with no gap and no
   repeat, if and only if no read for at least a byte found the buffer empty.
   Nothing that arrived is lost: it waits, or was received in full.
   */
  lemma EveryRunDeliversIff(base: nat, stream: seq<byte>, ring: Ring, ops: seq<Op>, r: Receiver, h: History)
    requires ring.Ok() && ring.inAt == ring.outAt && Legal(History(base, stream, {}, []), ops)
    requires (r, h) == After(Receiver(base, [], ring), History(base, stream, {}, []), ops)
    ensures base <= r.next <= base + |stream| && r.ring.Ok()
    ensures forall s :: Comes(s) in ops ==> Kept(r, s)
    ensures h.taken + r.ring.Contents() == stream[..r.next - base] <==> NeverStale(Receiver(base, [], ring), ops)
    ensures NeverStale(Receiver(base, [], ring), ops) ==> h.taken <= stream
  {
    var r0, h0 := Receiver(base, [], ring), History(base, stream, {}, []);
    RunInv(r0, h0, ops, r, h);
    StaleBytesIff(r0, ops);
    forall s | Comes(s) in ops
      ensures Kept(r, s)
    {
      RunArrived(r0, h0, ops, s);
    }
    if h.taken + r.ring.Contents() == stream[..r.next - base] {
      assert h.taken == (h.taken + r.ring.Contents())[..|h.taken|];
    }
  }

  /** A first read of an empty buffer gives the application bytes of a stream that has none. */
  lemma StaleAtOnce(base: nat, ring: Ring)
    requires ring.Ok() && ring.inAt == ring.outAt
    ensures Legal(History(base, [], {}, []), [Reads(1)])
    ensures |After(Receiver(base, [], ring), History(base, [], {}, []), [Reads(1)]).1.taken| == 1
  {
    var r := Receiver(base, [], ring);
    StaleRead(ring, 1, Recv(r, 1).0.ring, Recv(r, 1).1);
    var h1 := Noted(History(base, [], {}, []), Reads(1), Step(r, Reads(1)).1);
    assert [Reads(1)][1..] == [];
    assert After(Step(r, Reads(1)).0, h1, []) == (Step(r, Reads(1)).0, h1);
  }

  // ----- the code -----

  class TcpReceiver {
    var rxLastSeq: nat
    var recvQueue: seq<Segment>
    const rx: RingBuffer.Buffer

    ghost predicate Valid()
      reads this, rx, rx.buffer
    {
      rx.Valid()
    }

    ghost function View(): Receiver
      reads this, rx, rx.buffer
    {
      Receiver(rxLastSeq, recvQueue, rx.View())
    }

    constructor (seqnum: nat, size: nat)
      requires size >= 2
      ensures Valid() && fresh(rx) && fresh(rx.buffer)
      ensures View().next == seqnum && View().queue == [] && View().ring.max == size && View().ring.Contents() == []
    {
      rxLastSeq, recvQueue := seqnum, [];
      rx := new RingBuffer.Buffer(size);
      new;
      Spaces(rx.View());
    }

    /** tcp_queue_packet. */
    method QueuePacket(s: Segment)
      modifies this`recvQueue
      ensures recvQueue == Queued(old(recvQueue), s)
    {
      var i := 0;
      while i < |recvQueue| && !(s.start < recvQueue[i].start)
        invariant 0 <= i <= |recvQueue| && PlaceFrom(recvQueue, s.start, 0) == PlaceFrom(recvQueue, s.start, i)
      {
        i := i + 1;
      }
      recvQueue := recvQueue[..i] + [s] + recvQueue[i..];
    }

    /** One round of tcp_check_waiting_packet's loop, at a segment that has begun: false if the buffer is full. */
    method Deliver(s: Segment) returns (fits: bool)
      requires Valid() && s.start <= rxLastSeq
      modifies this`rxLastSeq, rx`inAt, rx.buffer
      ensures Valid() && View() == if s.End() > old(rxLastSeq) then Stored(old(View()), Fresh(old(View()), s))
              else old(View())
      ensures fits <==> s.End() <= rxLastSeq
    {
      fits := true;
      if s.start + |s.data| > rxLastSeq {
        var bytes := s.data[rxLastSeq - s.start..];
        var n := rx.Put(bytes);
        rxLastSeq := rxLastSeq + n;
        if n < |bytes| {
          fits := false;
        }
      }
    }

    /** tcp_check_waiting_packet. */
    method CheckWaiting() returns (all: bool)
      requires Valid()
      modifies this`rxLastSeq, this`recvQueue, rx`inAt, rx.buffer
      ensures Valid() && (View(), all) == Drain(old(View()))
    {
      ghost var goal := Drain(View());
      while recvQueue != [] && !(rxLastSeq < recvQueue[0].start)
        invariant Valid() && goal == Drain(View())
        decreases |recvQueue|
      {
        var fits := Deliver(recvQueue[0]);
        if !fits {
          return false;
        }
        recvQueue := recvQueue[1..];
      }
      return true;
    }

    /** tcp_forward_established, for a segment with data: the number acknowledged, if any. */
    method ForwardData(s: Segment) returns (ack: Option<nat>)
      requires Valid()
      modifies this`rxLastSeq, this`recvQueue, rx`inAt, rx.buffer
      ensures Valid() && (View(), ack) == Arrive(old(View()), s)
    {
      QueuePacket(s);
      var all := CheckWaiting();
      return if all then Some(rxLastSeq) else None;
    }

    /** tcp_endpoint_recv. */
    method ReadBytes(n: nat) returns (bytes: seq<byte>)
      requires Valid()
      modifies rx`outAt
      ensures Valid() && (View(), bytes) == Recv(old(View()), n)
    {
      bytes := rx.GetInto(n);
    }
  }
}
