/**
 * Opening a TCP connection (tcp.c; section 3.4 of RFC 793): a client and a listening server over a
 * network that may lose, repeat and reorder packets but makes none up. Before any data is sent, the
 * two ends of an established connection agree on both sequence numbers.
 */
module TcpHandshake {
  import opened Common

  datatype State = Closed | SynSent | SynRecv | Established

  datatype Flags = Syn | SynAck | Ack

  datatype Header = Header(flags: Flags, seqnum: nat, acknum: nat)

  /** An endpoint; `isn` is the random number it started from, `peer` that which it took from the other end's
      SYN|ACK. */
  datatype Endpoint = Endpoint(state: State, rx: nat, tx: nat, isn: nat, peer: nat)

  function Plus(x: nat, n: nat): (r: nat)
    ensures r < WORD32 && (x + n - r) % WORD32 == 0
  {
    (x + n) % WORD32
  }

  // ----- one endpoint -----

  /** tcp_send_packet without data: the endpoint afterwards, and the header sent. */
  function Send(e: Endpoint, flags: Flags, ackbytes: nat): (Endpoint, Header) {
    var rx := if flags != Syn then Plus(e.rx, ackbytes) else e.rx;
    var tx := if flags == Syn then Plus(e.tx, 1) else e.tx;
    (e.(rx := rx, tx := tx), Header(flags, e.tx, if flags != Syn then rx else 0))
  }

  /** tcp_endpoint_connect, starting from a random `isn`. */
  function Opened(isn: nat): (Endpoint, Header) {
    var (e, hdr) := Send(Endpoint(Closed, 0, isn, isn, 0), Syn, 1);
    (e.(state := SynSent), hdr)
  }

  /** tcp_create_client_endpoint, for a SYN that was queued. */
  function Accept(syn: Header, isn: nat): (Endpoint, Header) {
    Send(Endpoint(SynRecv, syn.seqnum, isn, isn, 0), SynAck, 1)
  }

  /** tcp_forward_syn_sent. */
  function ForwardSynSent(e: Endpoint, hdr: Header): (Endpoint, Option<Header>) {
    if hdr.flags != SynAck || hdr.acknum != e.tx then (e, None)
    else
      var (e', ack) := Send(e.(state := Established, rx := hdr.seqnum, peer := hdr.seqnum), Ack, 1);
      (e', Some(ack))
  }

  /** tcp_forward_syn_recv. */
  function ForwardSynRecv(e: Endpoint, hdr: Header): Endpoint {
    if hdr.flags != Ack || hdr.seqnum != e.rx then e else e.(state := Established, tx := hdr.acknum)
  }

  /** tcp_forward_packet to an endpoint of a connection: one that is established has nothing to do for a packet
      without data. */
  function Forward(e: Endpoint, hdr: Header): (Endpoint, Option<Header>) {
    match e.state
    case SynSent => ForwardSynSent(e, hdr)
    case SynRecv => (ForwardSynRecv(e, hdr), None)
    case _ => (e, None)
  }

  /** A connection is opened by the SYN|ACK of the number sent, which is acknowledged, and by nothing else. */
  lemma OpensIff(e: Endpoint, hdr: Header)
    requires e.state == SynSent
    ensures Forward(e, hdr).0.state == Established <==> hdr.flags == SynAck && hdr.acknum == e.tx
    ensures Forward(e, hdr).0.state == Established ==>
            Forward(e, hdr).1 == Some(Header(Ack, e.tx, Plus(hdr.seqnum, 1)))
    ensures Forward(e, hdr).0.state != Established ==> Forward(e, hdr) == (e, None)
  {
  }

  /** One that was accepted is opened by an ACK with the number expected, and by nothing else. */
  lemma AnswersIff(e: Endpoint, hdr: Header)
    requires e.state == SynRecv
    ensures Forward(e, hdr).0.state == Established <==> hdr.flags == Ack && hdr.seqnum == e.rx
    ensures Forward(e, hdr).0.state != Established ==> Forward(e, hdr) == (e, None)
    ensures Forward(e, hdr).1 == None && Forward(e, hdr).0.rx == e.rx
  {
  }

  // ----- the network -----

  /** The client, the SYNs waiting at the listener, the endpoints accepted, newest last, and every packet ever
      sent each way. */
  datatype Net = Net(client: Endpoint, backlog: seq<Header>, max: nat, accepted: seq<Endpoint>, toServer: set<Header>,
      toClient: set<Header>)

  datatype Op = Open(isn: nat) | AtServer(hdr: Header) | Admit(isn: nat) | AtClient(hdr: Header)

  /** Only what was sent can arrive, any number of times or never; numbers are 32 bits. */
  predicate Legal(n: Net, op: Op) {
    match op
    case Open(isn) => n.client.state == Closed && isn < WORD32
    case AtServer(hdr) => hdr in n.toServer
    case Admit(isn) => n.backlog != [] && isn < WORD32
    case AtClient(hdr) => hdr in n.toClient
  }

  function Step(n: Net, op: Op): Net
    requires Legal(n, op)
  {
    match op
    case Open(isn) =>
      var (client, syn) := Opened(isn);
      n.(client := client, toServer := n.toServer + {syn})
    case AtServer(hdr) =>
      if n.accepted == [] then
        if hdr.flags != Syn || |n.backlog| >= n.max then n else n.(backlog := n.backlog + [hdr])
      else
        var last := |n.accepted| - 1;
        n.(accepted := n.accepted[last := Forward(n.accepted[last], hdr).0])
    case Admit(isn) =>
      var (e, synack) := Accept(n.backlog[0], isn);
      n.(backlog := n.backlog[1..], accepted := n.accepted + [e], toClient := n.toClient + {synack})
    case AtClient(hdr) =>
      var (client, ack) := Forward(n.client, hdr);
      n.(client := client, toServer := match ack case None => n.toServer case Some(a) => n.toServer + {a})
  }

  /** Before the client connects; `queue` is what listen was given. */
  function Start(queue: nat): Net {
    Net(Endpoint(Closed, 0, 0, 0, 0), [], if queue < 10 then queue else 10, [], {}, {})
  }

  // ----- the invariant -----

  predicate IsSyn(c: Endpoint, hdr: Header) {
    c.state != Closed && hdr.flags == Syn && hdr.seqnum == c.isn
  }

  /** What the client sends. */
  predicate ClientSent(c: Endpoint, hdr: Header) {
    IsSyn(c, hdr) || (c.state == Established && hdr == Header(Ack, c.tx, c.rx))
  }

  /** An endpoint accepted expects the client's numbers, and once established agrees with it. */
  predicate AcceptedOk(c: Endpoint, e: Endpoint) {
    && c.state != Closed && e.isn < WORD32 && e.rx == c.tx
    && (if e.state == Established then c.state == Established && e.tx == c.rx else e.state == SynRecv && e.tx == e.isn)
  }

  /** What an accepted endpoint sends. */
  predicate Answers(c: Endpoint, e: Endpoint, hdr: Header) {
    hdr == Header(SynAck, e.isn, c.tx)
  }

  ghost predicate ServerSent(n: Net, hdr: Header) {
    exists i :: 0 <= i < |n.accepted| && Answers(n.client, n.accepted[i], hdr)
  }

  ghost predicate ClientOk(n: Net) {
    match n.client.state
    case Closed => true
    case SynSent => n.client.isn < WORD32 && n.client.tx == Plus(n.client.isn, 1)
    case Established =>
      && n.client.isn < WORD32 && n.client.tx == Plus(n.client.isn, 1) && n.client.rx == Plus(n.client.peer, 1)
      && exists i :: 0 <= i < |n.accepted| && n.accepted[i].isn == n.client.peer
    case SynRecv => false
  }

  ghost predicate Inv(n: Net) {
    && ClientOk(n)
    && (forall i :: 0 <= i < |n.backlog| ==> IsSyn(n.client, n.backlog[i]))
    && (forall i :: 0 <= i < |n.accepted| ==> AcceptedOk(n.client, n.accepted[i]))
    && (forall hdr :: hdr in n.toServer ==> ClientSent(n.client, hdr))
    && (forall hdr :: hdr in n.toClient ==> ServerSent(n, hdr))
  }

  lemma OpenInv(n: Net, isn: nat)
    requires Inv(n) && Legal(n, Open(isn))
    ensures Inv(Step(n, Open(isn)))
  {
    NothingYet(n);
  }

  /** Before the client connects nothing has been sent. */
  lemma NothingYet(n: Net)
    requires Inv(n) && n.client.state == Closed
    ensures n.backlog == [] && n.accepted == [] && n.toServer == {} && n.toClient == {}
  {
    Sending(n);
  }

  /** A client with anything waiting or accepted has connected. */
  lemma Sending(n: Net)
    requires Inv(n)
    ensures n.backlog != [] || n.accepted != [] ==> n.client.state != Closed
  {
    if n.backlog != [] {
      assert IsSyn(n.client, n.backlog[0]);
    }
    if n.accepted != [] {
      assert AcceptedOk(n.client, n.accepted[0]);
    }
  }

  lemma AtServerInv(n: Net, hdr: Header)
    requires Inv(n) && Legal(n, AtServer(hdr))
    ensures Inv(Step(n, AtServer(hdr)))
  {
    var n' := Step(n, AtServer(hdr));
    assert ClientSent(n.client, hdr);
    assert |n'.accepted| == |n.accepted|
           && forall i :: 0 <= i < |n.accepted| ==> n'.accepted[i].isn == n.accepted[i].isn;
    forall h | h in n.toClient
      ensures ServerSent(n', h)
    {
      assert ServerSent(n, h);
      var i :| 0 <= i < |n.accepted| && Answers(n.client, n.accepted[i], h);
      assert Answers(n'.client, n'.accepted[i], h);
    }
  }

  lemma AdmitInv(n: Net, isn: nat)
    requires Inv(n) && Legal(n, Admit(isn))
    ensures Inv(Step(n, Admit(isn)))
  {
    var n' := Step(n, Admit(isn));
    var k := |n.accepted|;
    assert IsSyn(n.client, n.backlog[0]);
    assert forall i :: 0 <= i < k ==> n'.accepted[i] == n.accepted[i];
    forall h | h in n'.toClient
      ensures ServerSent(n', h)
    {
      if h in n.toClient {
        assert ServerSent(n, h);
        var i :| 0 <= i < k && Answers(n.client, n.accepted[i], h);
        assert Answers(n'.client, n'.accepted[i], h);
      } else {
        assert Answers(n'.client, n'.accepted[k], h);
      }
    }
  }

  lemma AtClientInv(n: Net, hdr: Header)
    requires Inv(n) && Legal(n, AtClient(hdr))
    ensures Inv(Step(n, AtClient(hdr)))
  {
    var n' := Step(n, AtClient(hdr));
    assert ServerSent(n, hdr);
    var i :| 0 <= i < |n.accepted| && Answers(n.client, n.accepted[i], hdr);
    forall j | 0 <= j < |n.accepted|
      ensures AcceptedOk(n'.client, n'.accepted[j])
    {
      assert AcceptedOk(n.client, n.accepted[j]);
    }
    forall h | h in n.toClient
      ensures ServerSent(n', h)
    {
      assert ServerSent(n, h);
      var j :| 0 <= j < |n.accepted| && Answers(n.client, n.accepted[j], h);
      assert Answers(n'.client, n'.accepted[j], h);
    }
    forall h | h in n'.toServer
      ensures ClientSent(n'.client, h)
    {
      assert h in n.toServer ==> ClientSent(n.client, h);
    }
  }

  lemma StepInv(n: Net, op: Op)
    requires Inv(n) && Legal(n, op)
    ensures Inv(Step(n, op))
  {
    match op
    case Open(isn) => OpenInv(n, isn);
    case AtServer(hdr) => AtServerInv(n, hdr);
    case Admit(isn) => AdmitInv(n, isn);
    case AtClient(hdr) => AtClientInv(n, hdr);
  }

  // ----- runs -----

  ghost predicate LegalRun(n: Net, ops: seq<Op>)
    decreases |ops|
  {
    ops == [] || (Legal(n, ops[0]) && LegalRun(Step(n, ops[0]), ops[1..]))
  }

  ghost function After(n: Net, ops: seq<Op>): Net
    requires LegalRun(n, ops)
    decreases |ops|
  {
    if ops == [] then n else After(Step(n, ops[0]), ops[1..])
  }

  lemma {:induction false} RunInv(n: Net, ops: seq<Op>)
    requires Inv(n) && LegalRun(n, ops)
    ensures Inv(After(n, ops))
    decreases |ops|
  {
    if ops != [] {
      StepInv(n, ops[0]);
      RunInv(Step(n, ops[0]), ops[1..]);
    }
  }

  lemma {:induction false} RunQueues(n: Net, ops: seq<Op>)
    requires LegalRun(n, ops) && |n.backlog| <= n.max
    ensures |After(n, ops).backlog| <= After(n, ops).max == n.max
    decreases |ops|
  {
    if ops != [] {
      RunQueues(Step(n, ops[0]), ops[1..]);
    }
  }

  /** No more SYNs wait than listen was given, nor than ten. */
  lemma EveryRunQueues(queue: nat, ops: seq<Op>)
    requires LegalRun(Start(queue), ops)
    ensures |After(Start(queue), ops).backlog| <= Min(queue, 10)
  {
    RunQueues(Start(queue), ops);
  }

  /** Until a connection is accepted, a SYN that arrives waits behind the others, exactly if there is room. */
  lemma SynWaitsIff(n: Net, syn: Header)
    requires Legal(n, AtServer(syn)) && n.accepted == [] && syn.flags == Syn && |n.backlog| <= n.max
    ensures Step(n, AtServer(syn)).backlog == n.backlog + [syn] <==> |n.backlog| != n.max
  {
  }

  /** In every state that can be reached, the client and an accepted endpoint that are both established agree:
      each expects what the other sends next. The client's number is its initial one plus one; the endpoint's is
      that of its own exactly when it is its SYN|ACK that the client took. */
  lemma Agreement(queue: nat, ops: seq<Op>, n: Net, i: nat)
    requires LegalRun(Start(queue), ops) && n == After(Start(queue), ops)
    requires i < |n.accepted| && n.accepted[i].state == Established
    ensures var c, e := n.client, n.accepted[i];
            && c.state == Established && e.tx == c.rx && c.tx == e.rx == Plus(c.isn, 1)
            && (e.tx == Plus(e.isn, 1) <==> c.peer == e.isn)
  {
    RunInv(Start(queue), ops);
    assert AcceptedOk(n.client, n.accepted[i]);
    var j :| 0 <= j < |n.accepted| && n.accepted[j].isn == n.client.peer;
    assert AcceptedOk(n.client, n.accepted[j]);
    PlusInjective(n.client.peer, n.accepted[i].isn);
  }

  lemma PlusInjective(x: nat, y: nat)
    requires x < WORD32 && y < WORD32
    ensures Plus(x, 1) == Plus(y, 1) <==> x == y
  {
  }

  /** If only one endpoint was accepted, both numbers are the initial ones plus one. */
  lemma SingleAccept(queue: nat, ops: seq<Op>, n: Net)
    requires LegalRun(Start(queue), ops) && n == After(Start(queue), ops)
    requires |n.accepted| == 1 && n.accepted[0].state == Established
    ensures n.accepted[0].tx == n.client.rx == Plus(n.accepted[0].isn, 1)
    ensures n.client.tx == n.accepted[0].rx == Plus(n.client.isn, 1)
  {
    RunInv(Start(queue), ops);
    assert AcceptedOk(n.client, n.accepted[0]);
    Agreement(queue, ops, n, 0);
  }

  /** An established endpoint whose number is not its own initial one plus one. */
  predicate Borrowed(n: Net, i: nat) {
    i < |n.accepted| && n.accepted[i].state == Established && n.accepted[i].tx != Plus(n.accepted[i].isn, 1)
  }

  /** The acknowledgement that establishes an endpoint is one of its own number, which the code does not look at. */
  predicate Acknowledged(n: Net, op: Op) {
    op.AtServer? && n.accepted != [] ==>
      var e := n.accepted[|n.accepted| - 1];
      e.state == SynRecv && ForwardSynRecv(e, op.hdr).state == Established ==> op.hdr.acknum == Plus(e.tx, 1)
  }

  ghost predicate AcknowledgedRun(n: Net, ops: seq<Op>)
    requires LegalRun(n, ops)
    decreases |ops|
  {
    ops == [] || (Acknowledged(n, ops[0]) && AcknowledgedRun(Step(n, ops[0]), ops[1..]))
  }

  ghost predicate NoneBorrowed(n: Net) {
    forall i: nat :: !Borrowed(n, i)
  }

  lemma StepBorrowsIff(n: Net, op: Op)
    requires Inv(n) && Legal(n, op)
    ensures NoneBorrowed(Step(n, op)) <==> NoneBorrowed(n) && Acknowledged(n, op)
  {
    var n', last := Step(n, op), |n.accepted| - 1;
    assert forall i :: 0 <= i < |n.accepted| && i != last ==> n'.accepted[i] == n.accepted[i];
    if n.accepted != [] {
      assert AcceptedOk(n.client, n.accepted[last]);
      assert Borrowed(n', last) ==> Borrowed(n, last) || !Acknowledged(n, op);
      assert Borrowed(n, last) || !Acknowledged(n, op) ==> Borrowed(n', last);
    }
    forall i: nat | i != last
      ensures Borrowed(n', i) <==> Borrowed(n, i)
    {
    }
  }

  /** Over every run, all established endpoints have numbers of their own if and only if each was acknowledged
      its own. */
  lemma {:induction false} OwnNumbersIff(n: Net, ops: seq<Op>)
    requires Inv(n) && LegalRun(n, ops)
    ensures NoneBorrowed(After(n, ops)) <==> NoneBorrowed(n) && AcknowledgedRun(n, ops)
    decreases |ops|
  {
    if ops != [] {
      StepInv(n, ops[0]);
      StepBorrowsIff(n, ops[0]);
      OwnNumbersIff(Step(n, ops[0]), ops[1..]);
    }
  }

  lemma EveryRunOwnNumbersIff(queue: nat, ops: seq<Op>)
    requires LegalRun(Start(queue), ops)
    ensures NoneBorrowed(After(Start(queue), ops)) <==> AcknowledgedRun(Start(queue), ops)
  {
    OwnNumbersIff(Start(queue), ops);
  }

  /** Accept, handshake, accept again, and the client's first ACK once more. */
  lemma AcceptTwice(n: Net, syn: Header, synack: Header, ack: Header)
    requires syn == Header(Syn, 100, 0) && synack == Header(SynAck, 200, 101) && ack == Header(Ack, 101, 201)
    requires n == Net(Endpoint(SynSent, 0, 101, 100, 0), [syn, syn], 5, [], {syn}, {})
    ensures var ops := [Admit(200), AtClient(synack), Admit(300), AtServer(ack)];
            LegalRun(n, ops) && Borrowed(After(n, ops), 1)
  {
    var n1 := Step(n, Admit(200));
    var n2 := Step(n1, AtClient(synack));
    var n3 := Step(n2, Admit(300));
    RunOne(n3, AtServer(ack), []);
    RunOne(n2, Admit(300), [AtServer(ack)]);
    RunOne(n1, AtClient(synack), [Admit(300), AtServer(ack)]);
    RunOne(n, Admit(200), [AtClient(synack), Admit(300), AtServer(ack)]);
    assert After(n, [Admit(200), AtClient(synack), Admit(300), AtServer(ack)]).accepted[1]
           == Endpoint(Established, 101, 201, 300, 0);
  }

  /** A SYN that arrives twice before it is accepted can be accepted twice, and the second endpoint is then
      established with a number that is not its own. */
  lemma SecondAccept()
    ensures exists ops :: LegalRun(Start(5), ops) && Borrowed(After(Start(5), ops), 1)
  {
    var syn, synack, ack := Header(Syn, 100, 0), Header(SynAck, 200, 101), Header(Ack, 101, 201);
    var rest := [Admit(200), AtClient(synack), Admit(300), AtServer(ack)];
    var n1 := Step(Start(5), Open(100));
    var n2 := Step(n1, AtServer(syn));
    var n3 := Step(n2, AtServer(syn));
    AcceptTwice(n3, syn, synack, ack);
    RunOne(n2, AtServer(syn), rest);
    RunOne(n1, AtServer(syn), [AtServer(syn)] + rest);
    RunOne(Start(5), Open(100), [AtServer(syn)] + ([AtServer(syn)] + rest));
  }

  lemma RunOne(n: Net, op: Op, ops: seq<Op>)
    requires Legal(n, op) && LegalRun(Step(n, op), ops)
    ensures LegalRun(n, [op] + ops) && After(n, [op] + ops) == After(Step(n, op), ops)
  {
    assert ([op] + ops)[1..] == ops;
  }

  // ----- the code -----

  class TcpEndpoint {
    var state: State
    var rxLastSeq: nat
    var txLastSeq: nat
    ghost var isn: nat
    ghost var peer: nat

    ghost function View(): Endpoint
      reads this
    {
      Endpoint(state, rxLastSeq, txLastSeq, isn, peer)
    }

    constructor ()
      ensures View() == Endpoint(Closed, 0, 0, 0, 0)
    {
      state, rxLastSeq, txLastSeq, isn, peer := Closed, 0, 0, 0, 0;
    }

    /** tcp_send_packet, without data. */
    method SendPacket(flags: Flags, ackbytes: nat) returns (hdr: Header)
      modifies this`rxLastSeq, this`txLastSeq
      ensures (View(), hdr) == Send(old(View()), flags, ackbytes)
    {
      var acknum := 0;
      if flags != Syn {
        rxLastSeq := (rxLastSeq + ackbytes) % WORD32;
        acknum := rxLastSeq;
      }
      hdr := Header(flags, txLastSeq, acknum);
      if flags == Syn {
        txLastSeq := (txLastSeq + 1) % WORD32;
      }
    }

    /** tcp_endpoint_connect; `random` is what rand() returns. */
    method Connect(random: nat) returns (syn: Header)
      requires View() == Endpoint(Closed, 0, 0, 0, 0)
      modifies this
      ensures (View(), syn) == Opened(random)
    {
      txLastSeq, isn := random, random;
      syn := SendPacket(Syn, 1);
      state := SynSent;
    }

    /** tcp_create_client_endpoint, on the endpoint it allocates. */
    method CreateClient(syn: Header, random: nat) returns (synack: Header)
      requires View() == Endpoint(Closed, 0, 0, 0, 0)
      modifies this
      ensures (View(), synack) == Accept(syn, random)
    {
      state, rxLastSeq, txLastSeq, isn := SynRecv, syn.seqnum, random, random;
      synack := SendPacket(SynAck, 1);
    }

    /** tcp_forward_syn_sent, tcp_forward_syn_recv and tcp_forward_established, for a packet without data, FIN
        or RST. */
    method ForwardPacket(hdr: Header) returns (reply: Option<Header>)
      modifies this
      ensures (View(), reply) == Forward(old(View()), hdr)
    {
      match state {
        case SynSent =>
          if hdr.flags != SynAck || hdr.acknum != txLastSeq {
            return None;
          }
          rxLastSeq, peer := hdr.seqnum, hdr.seqnum;
          state := Established;
          var ack := SendPacket(Ack, 1);
          return Some(ack);
        case SynRecv =>
          if hdr.flags != Ack || hdr.seqnum != rxLastSeq {
            return None;
          }
          txLastSeq := hdr.acknum;
          state := Established;
          return None;
        case _ =>
          return None;
      }
    }
  }
}
