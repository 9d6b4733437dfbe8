/**
 * SLIP framing (slip.c; RFC 1055): packets sent with an END byte before and after, and END and ESC
 * bytes inside escaped, are recovered from the byte stream however the device chops it up.
 */
module Slip {
  import opened Common

  const MTU_MAX := 1500
  const END: byte := 0xC0
  const ESC: byte := 0xDB
  const ESC_END: byte := 0xDC
  const ESC_ESC: byte := 0xDD

  type Packet = seq<byte>

  // ----- one packet -----

  function EscapeByte(b: byte): seq<byte> {
    if b == END then [ESC, ESC_END] else if b == ESC then [ESC, ESC_ESC] else [b]
  }

  function Escape(p: Packet): seq<byte> {
    if p == [] then [] else EscapeByte(p[0]) + Escape(p[1..])
  }

  /** slip_encode_packet. */
  function Encode(p: Packet): seq<byte> {
    [END] + Escape(p) + [END]
  }

  /** What an escaped byte stands for; the packet is zero where it stands for nothing. */
  function Unescaped(b: byte): byte {
    if b == ESC_END then END else if b == ESC_ESC then ESC else 0
  }

  /** slip_decode_packet. */
  function Decode(s: seq<byte>): Packet {
    if s == [] || s[0] == END then []
    else if s[0] == ESC then if |s| > 1 then [Unescaped(s[1])] + Decode(s[2..]) else [0]
    else [s[0]] + Decode(s[1..])
  }

  lemma DecodeByte(b: byte, rest: seq<byte>)
    ensures Decode(EscapeByte(b) + rest) == [b] + Decode(rest)
  {
    var e := EscapeByte(b);
    assert (e + rest)[|e|..] == rest;
  }

  /** A byte that nothing is escaped to is read as a zero, and so is an escape with nothing behind it. */
  lemma DecodeOther(b: byte, rest: seq<byte>)
    requires forall c: byte :: EscapeByte(c) != [ESC, b]
    ensures Decode([ESC, b] + rest) == [0] + Decode(rest) && Decode([ESC]) == [0]
  {
    assert EscapeByte(END) != [ESC, b] && EscapeByte(ESC) != [ESC, b];
    assert ([ESC, b] + rest)[2..] == rest;
  }

  /** Unescaping undoes escaping. */
  lemma {:induction false} DecodeEscaped(p: Packet)
    ensures Decode(Escape(p)) == p
  {
    if p != [] {
      DecodeByte(p[0], Escape(p[1..]));
      DecodeEscaped(p[1..]);
    }
  }

  lemma {:induction false} EscapeHasNoEnd(p: Packet)
    ensures END !in Escape(p) && |Escape(p)| >= |p|
  {
    if p != [] {
      EscapeHasNoEnd(p[1..]);
    }
  }

  // ----- the stream -----

  /** What the receiver has: the bytes since the last END, and the packets so far. */
  datatype Rx = Rx(pending: seq<byte>, packets: seq<Packet>)

  /** One byte of slip_if_read_data's loop. */
  function Step(rx: Rx, b: byte): Rx {
    if b == END then Rx([], if rx.pending != [] then rx.packets + [Decode(rx.pending)] else rx.packets)
    else rx.(pending := rx.pending + [b])
  }

  function Feed(rx: Rx, s: seq<byte>): Rx {
    if s == [] then rx else Step(Feed(rx, s[..|s| - 1]), s[|s| - 1])
  }

  /** The stream of the packets' frames. */
  function Frames(ps: seq<Packet>): seq<byte> {
    if ps == [] then [] else Frames(ps[..|ps| - 1]) + Encode(ps[|ps| - 1])
  }

  /** The packets that are not empty. */
  function NonEmpty(ps: seq<Packet>): seq<Packet> {
    if ps == [] then []
    else
      var last := ps[|ps| - 1];
      NonEmpty(ps[..|ps| - 1]) + if last == [] then [] else [last]
  }

  lemma {:induction false} FeedConcat(rx: Rx, s: seq<byte>, t: seq<byte>)
    ensures Feed(rx, s + t) == Feed(Feed(rx, s), t)
  {
    if t == [] {
      assert s + t == s;
    } else {
      var n := |t| - 1;
      assert (s + t)[..|s + t| - 1] == s + t[..n];
      FeedConcat(rx, s, t[..n]);
    }
  }

  lemma {:induction false} FeedPlain(rx: Rx, s: seq<byte>)
    requires END !in s
    ensures Feed(rx, s) == rx.(pending := rx.pending + s)
  {
    if s != [] {
      FeedPlain(rx, s[..|s| - 1]);
    }
  }

  /** One frame gives back its packet, unless that is empty. */
  lemma FeedFrame(packets: seq<Packet>, p: Packet)
    ensures Feed(Rx([], packets), Encode(p)) == Rx([], if p == [] then packets else packets + [p])
  {
    var rx, e := Rx([], packets), Escape(p);
    FeedConcat(rx, [END] + e, [END]);
    FeedConcat(rx, [END], e);
    EscapeHasNoEnd(p);
    FeedPlain(rx, e);
    DecodeEscaped(p);
    FeedOne(rx, END);
    FeedOne(rx.(pending := e), END);
    assert [] + e == e;
  }

  lemma FeedOne(rx: Rx, b: byte)
    ensures Feed(rx, [b]) == Step(rx, b)
  {
    assert [b][..0] == [];
    assert Feed(rx, []) == rx;
  }

  /** The stream of frames gives back the packets that are not empty, in order. */
  lemma {:induction false} FramesRecovered(ps: seq<Packet>)
    ensures Feed(Rx([], []), Frames(ps)) == Rx([], NonEmpty(ps))
  {
    if ps != [] {
      var n := |ps| - 1;
      FramesRecovered(ps[..n]);
      FeedConcat(Rx([], []), Frames(ps[..n]), Encode(ps[n]));
      FeedFrame(NonEmpty(ps[..n]), ps[n]);
    }
  }

  function Joined(chunks: seq<seq<byte>>): seq<byte> {
    if chunks == [] then [] else Joined(chunks[..|chunks| - 1]) + chunks[|chunks| - 1]
  }

  /** slip_if_read_data over successive device reads. */
  function FeedChunks(rx: Rx, chunks: seq<seq<byte>>): Rx {
    if chunks == [] then rx else Feed(FeedChunks(rx, chunks[..|chunks| - 1]), chunks[|chunks| - 1])
  }

  lemma {:induction false} ChunksJoin(rx: Rx, chunks: seq<seq<byte>>)
    ensures FeedChunks(rx, chunks) == Feed(rx, Joined(chunks))
  {
    if chunks != [] {
      var n := |chunks| - 1;
      ChunksJoin(rx, chunks[..n]);
      FeedConcat(rx, Joined(chunks[..n]), chunks[n]);
    }
  }

  /** However the stream is chopped into reads, the packets come back; all of them exactly when none is empty. */
  lemma ChoppedRoundTrip(ps: seq<Packet>, chunks: seq<seq<byte>>)
    requires Joined(chunks) == Frames(ps)
    ensures FeedChunks(Rx([], []), chunks) == Rx([], NonEmpty(ps))
    ensures FeedChunks(Rx([], []), chunks).packets == ps <==> [] !in ps
  {
    ChunksJoin(Rx([], []), chunks);
    FramesRecovered(ps);
    NonEmptyAllIff(ps);
  }

  lemma {:induction false} NonEmptyAllIff(ps: seq<Packet>)
    ensures |NonEmpty(ps)| <= |ps| && (NonEmpty(ps) == ps <==> [] !in ps)
  {
    if ps != [] {
      var n := |ps| - 1;
      NonEmptyAllIff(ps[..n]);
      assert ps == ps[..n] + [ps[n]];
      assert NonEmpty(ps) == ps ==> NonEmpty(ps[..n]) == ps[..n];
    }
  }

  // ----- room -----

  /** The sender's frame fits its buffer. */
  predicate Fits(p: Packet) {
    |Encode(p)| <= MTU_MAX
  }

  /** While frames that fit come in, the receiver always has room for another byte. */
  lemma {:induction false} AlwaysRoom(ps: seq<Packet>, s: seq<byte>)
    requires s <= Frames(ps) && forall i :: 0 <= i < |ps| ==> Fits(ps[i])
    ensures |Feed(Rx([], []), s).pending| < MTU_MAX
  {
    if ps != [] {
      var n := |ps| - 1;
      var frames, rx := Frames(ps[..n]), Rx([], []);
      if |s| <= |frames| {
        assert s <= frames;
        AlwaysRoom(ps[..n], s);
      } else {
        var t := s[|frames|..];
        assert s == frames + t && t <= Encode(ps[n]);
        FeedConcat(rx, frames, t);
        FramesRecovered(ps[..n]);
        FeedPartial(NonEmpty(ps[..n]), ps[n], t);
      }
    }
  }

  lemma FeedPartial(packets: seq<Packet>, p: Packet, t: seq<byte>)
    requires t <= Encode(p) && Fits(p)
    ensures |Feed(Rx([], packets), t).pending| < MTU_MAX
  {
    var rx := Rx([], packets);
    if t == Encode(p) {
      FeedFrame(packets, p);
    } else if t != [] {
      var u := t[1..];
      assert t == [END] + u && u <= Escape(p);
      FeedConcat(rx, [END], u);
      FeedOne(rx, END);
      EscapeHasNoEnd(p);
      assert END !in u;
      FeedPlain(rx, u);
    }
  }

  // ----- the code -----

  lemma {:induction false} FramesFront(ps: seq<Packet>)
    requires ps != []
    ensures Frames(ps) == Encode(ps[0]) + Frames(ps[1..])
  {
    var n := |ps| - 1;
    if n > 0 {
      var first, last, rest := ps[0], ps[n], ps[1..];
      FramesFront(ps[..n]);
      assert ps[..n][1..] == rest[..n - 1] && rest[n - 1] == last;
      Assoc(Encode(first), Frames(rest[..n - 1]), Encode(last));
    }
  }

  lemma EscapeNext(p: Packet, i: nat)
    requires i < |p|
    ensures Escape(p[i..]) + [END] == EscapeByte(p[i]) + (Escape(p[i + 1..]) + [END])
  {
    assert p[i..][1..] == p[i + 1..];
  }

  /** The bytes unescaped so far and those still to come make up the packet. */
  ghost predicate Undecoded(goal: Packet, pack: Packet, s: seq<byte>) {
    goal == pack + Decode(s)
  }

  class SlipDevice {
    var rxRead: nat
    var rxWrite: nat
    const rxBuffer: array<byte>
    var rxQueue: seq<Packet>
    var txRead: nat
    var txWrite: nat
    const txBuffer: array<byte>
    var txQueue: seq<Packet>

    ghost predicate Valid()
      reads this, rxBuffer
    {
      && rxBuffer.Length == txBuffer.Length == MTU_MAX && rxBuffer != txBuffer
      && rxRead == rxWrite <= MTU_MAX && END !in rxBuffer[..rxWrite] && txRead <= txWrite <= MTU_MAX
      && (txWrite != 0 ==> txRead < txWrite)
    }

    ghost function Received(): Rx
      requires rxWrite <= rxBuffer.Length
      reads this, rxBuffer
    {
      Rx(rxBuffer[..rxWrite], rxQueue)
    }

    /** What is yet to go out. */
    ghost function Unsent(): seq<byte>
      requires txRead <= txWrite <= txBuffer.Length
      reads this, txBuffer
    {
      txBuffer[txRead..txWrite] + Frames(txQueue)
    }

    /** How much of it is encoded, or is when the next bytes are asked for. */
    ghost function Pending(): int
      reads this
    {
      if txWrite != 0 then txWrite - txRead else if txQueue != [] then |Encode(txQueue[0])| else 0
    }

    constructor ()
      ensures Valid() && fresh(rxBuffer) && fresh(txBuffer) && Received() == Rx([], []) && Unsent() == []
    {
      rxBuffer := new byte[MTU_MAX](_ => 0);
      txBuffer := new byte[MTU_MAX](_ => 0);
      rxRead, rxWrite, rxQueue, txRead, txWrite, txQueue := 0, 0, [], 0, 0, [];
    }

    /** One round of slip_encode_packet's loop. */
    method EncodeByte(b: byte, j: nat, ghost rest: seq<byte>, ghost whole: seq<byte>) returns (j': nat)
      requires txBuffer.Length == MTU_MAX && j < MTU_MAX && |whole| <= MTU_MAX
      requires whole == txBuffer[..j] + (EscapeByte(b) + rest) && rest != []
      modifies txBuffer
      ensures j' < MTU_MAX && whole == txBuffer[..j'] + rest
    {
      ghost var before := txBuffer[..j];
      if b == END {
        txBuffer[j], txBuffer[j + 1], j' := ESC, ESC_END, j + 2;
      } else if b == ESC {
        txBuffer[j], txBuffer[j + 1], j' := ESC, ESC_ESC, j + 2;
      } else {
        txBuffer[j], j' := b, j + 1;
      }
      assert txBuffer[..j'] == before + EscapeByte(b);
    }

    /** slip_encode_packet's loop. */
    method EncodeBytes(p: Packet) returns (j: nat)
      requires txBuffer.Length == MTU_MAX && Fits(p)
      modifies txBuffer
      ensures j <= MTU_MAX && txBuffer[..j] == Encode(p)
    {
      ghost var whole, rest := Encode(p), Escape(p) + [END];
      txBuffer[0], j := END, 1;
      assert p[0..] == p && txBuffer[..1] == [END];
      var i := 0;
      while i < |p|
        invariant 0 <= i <= |p| && j < MTU_MAX && rest == Escape(p[i..]) + [END] && whole == txBuffer[..j] + rest
      {
        EscapeNext(p, i);
        rest := Escape(p[i + 1..]) + [END];
        j := EncodeByte(p[i], j, rest, whole);
        i := i + 1;
      }
      txBuffer[j], j := END, j + 1;
    }

    /** slip_encode_packet. */
    method EncodePacket()
      requires Valid() && txWrite == 0 && (txQueue != [] ==> Fits(txQueue[0]))
      modifies this`txRead, this`txWrite, this`txQueue, txBuffer
      ensures Valid() && Unsent() == old(Unsent()) && txWrite - txRead == Pending() == old(Pending())
    {
      if txQueue == [] {
        return;
      }
      var pack := txQueue[0];
      FramesFront(txQueue);
      txQueue := txQueue[1..];
      var j := EncodeBytes(pack);
      txRead, txWrite := 0, j;
    }

    /** The device takes at most `room` bytes of what is encoded. */
    method SendSome(room: nat) returns (bytes: seq<byte>)
      requires Valid()
      modifies this`txRead, this`txWrite
      ensures Valid() && |bytes| == Min(room, old(txWrite - txRead))
      ensures bytes + txBuffer[txRead..txWrite] == old(txBuffer[txRead..txWrite])
    {
      bytes := [];
      if txRead < txWrite {
        var written := if room < txWrite - txRead then room else txWrite - txRead;
        bytes := txBuffer[txRead..txRead + written];
        txRead := txRead + written;
        if txRead >= txWrite {
          txRead, txWrite := 0, 0;
        }
      }
    }

    /** A round of slip_if_write_data, when the device takes at most `room` bytes. */
    method WriteSome(room: nat) returns (bytes: seq<byte>)
      requires Valid() && (txQueue != [] ==> Fits(txQueue[0]))
      modifies this`txRead, this`txWrite, this`txQueue, txBuffer
      ensures Valid() && |bytes| == Min(room, old(Pending())) && bytes + Unsent() == old(Unsent())
    {
      if txWrite == 0 {
        EncodePacket();
      }
      bytes := SendSome(room);
      Assoc(bytes, txBuffer[txRead..txWrite], Frames(txQueue));
    }

    /** One round of slip_decode_packet's loop, at a byte that is not END. */
    method DecodeByte(i: nat, length: nat, pack: Packet, ghost goal: Packet) returns (i': nat, pack': Packet)
      requires i < length < rxBuffer.Length && rxBuffer[i] != END && rxBuffer[length] == END
      requires Undecoded(goal, pack, rxBuffer[i..length])
      ensures i < i' <= length + 1 && Undecoded(goal, pack', rxBuffer[Min(i', length)..length])
    {
      ghost var s := rxBuffer[i..length];
      i' := i;
      if rxBuffer[i] == ESC {
        i' := i + 1;
        var b: byte := if rxBuffer[i'] == ESC_END then END else if rxBuffer[i'] == ESC_ESC then ESC else 0;
        pack' := pack + [b];
        assert |s| > 1 ==> s[2..] == rxBuffer[i' + 1..length];
      } else {
        pack' := pack + [rxBuffer[i]];
        assert s[1..] == rxBuffer[i + 1..length];
      }
      i' := i' + 1;
    }

    /** slip_decode_packet. */
    method DecodePacket(length: nat)
      requires length < rxBuffer.Length && rxBuffer[length] == END
      modifies this`rxQueue
      ensures rxQueue == old(rxQueue) + [Decode(rxBuffer[..length])]
    {
      var pack: Packet, i := [], 0;
      ghost var goal := Decode(rxBuffer[..length]);
      assert rxBuffer[0..length] == rxBuffer[..length];
      while i < length && rxBuffer[i] != END
        invariant 0 <= i <= length + 1 && rxQueue == old(rxQueue)
        invariant Undecoded(goal, pack, rxBuffer[Min(i, length)..length])
        decreases length - i
      {
        i, pack := DecodeByte(i, length, pack, goal);
      }
      ghost var rest := rxBuffer[Min(i, length)..length];
      assert rest == [] || rest[0] == END;
      assert Decode(rest) == [] && pack + [] == pack;
      rxQueue := rxQueue + [pack];
    }

    /** One round of slip_if_read_data's loop: `left` bytes of the last read are still to be looked at. */
    method ReadByte(ghost left: seq<byte>)
      requires rxBuffer.Length == MTU_MAX && rxRead < rxWrite <= MTU_MAX && rxBuffer[rxRead..rxWrite] == left
      requires left != [] && END !in rxBuffer[..rxRead]
      modifies this`rxRead, this`rxWrite, this`rxQueue, rxBuffer
      ensures rxRead <= rxWrite <= MTU_MAX && rxBuffer[rxRead..rxWrite] == left[1..] && END !in rxBuffer[..rxRead]
      ensures Rx(rxBuffer[..rxRead], rxQueue) == Step(Rx(old(rxBuffer[..rxRead]), old(rxQueue)), left[0])
    {
      assert rxBuffer[rxRead] == left[0];
      if rxBuffer[rxRead] == END {
        if rxRead != 0 {
          DecodePacket(rxRead);
        }
        rxRead := rxRead + 1;
        ShiftDown();
        rxWrite := rxWrite - rxRead;
        rxRead := 0;
      } else {
        rxRead := rxRead + 1;
      }
    }

    /** memcpy of what follows the frame to the start of the buffer. */
    method ShiftDown()
      requires rxRead <= rxWrite <= rxBuffer.Length
      modifies rxBuffer
      ensures rxBuffer[..rxWrite - rxRead] == old(rxBuffer[rxRead..rxWrite])
    {
      for k := 0 to rxWrite - rxRead
        invariant forall j :: 0 <= j < k ==> rxBuffer[j] == old(rxBuffer[rxRead + j])
        invariant forall j :: k <= j < rxBuffer.Length ==> rxBuffer[j] == old(rxBuffer[j])
      {
        rxBuffer[k] := rxBuffer[rxRead + k];
      }
    }

    /** dev_read into the buffer after what is there. */
    method Append(chunk: seq<byte>)
      requires rxWrite + |chunk| <= rxBuffer.Length
      modifies this`rxWrite, rxBuffer
      ensures rxWrite == old(rxWrite) + |chunk| && rxBuffer[..old(rxWrite)] == old(rxBuffer[..rxWrite])
      ensures rxBuffer[old(rxWrite)..rxWrite] == chunk
    {
      for i := 0 to |chunk|
        invariant rxWrite == old(rxWrite)
        invariant forall j :: 0 <= j < rxWrite + i ==> rxBuffer[j] == if j < rxWrite then old(rxBuffer[j])
                  else chunk[j - rxWrite]
      {
        rxBuffer[rxWrite + i] := chunk[i];
      }
      rxWrite := rxWrite + |chunk|;
    }

    /** slip_if_read_data, when the device gives `chunk`. */
    method ReadData(chunk: seq<byte>)
      requires Valid() && |chunk| <= MTU_MAX - rxWrite
      modifies this`rxRead, this`rxWrite, this`rxQueue, rxBuffer
      ensures Valid() && Received() == Feed(old(Received()), chunk)
    {
      ghost var was := Received();
      Append(chunk);
      assert chunk[0..] == chunk && chunk[..0] == [];
      for k := 0 to |chunk|
        invariant rxRead <= rxWrite <= MTU_MAX && rxBuffer[rxRead..rxWrite] == chunk[k..] && END !in rxBuffer[..rxRead]
        invariant Rx(rxBuffer[..rxRead], rxQueue) == Feed(was, chunk[..k])
      {
        ReadByte(chunk[k..]);
        assert chunk[..k + 1][..k] == chunk[..k] && chunk[k..][1..] == chunk[k + 1..];
      }
      assert chunk[..|chunk|] == chunk;
      rxRead := rxWrite;
    }
  }
}
