/**
 * The ring buffer (ringbuffer.h): a circular byte buffer that holds one byte less than its size,
 * filled and emptied a byte at a time or in chunks of an iterator. Both are a FIFO queue of bytes,
 * apart from two corner cases of the latter.
 */
module RingBuffer {
  import opened Common

  datatype Ring = Ring(max: nat, inAt: nat, outAt: nat, buffer: seq<byte>) {
    predicate Ok() {
      2 <= max <= |buffer| && inAt < max && outAt < max
    }

    /** _buf_used_space. */
    function Used(): int {
      if inAt >= outAt then inAt - outAt else max - outAt + inAt
    }

    /** _buf_free_space. */
    function Free(): int {
      if outAt > inAt then outAt - inAt - 1 else max - inAt + outAt - 1
    }

    /** The bytes in the buffer, oldest first. */
    function Contents(): (c: seq<byte>)
      requires Ok()
      ensures |c| == Used()
    {
      if inAt >= outAt then buffer[outAt..inAt] else buffer[outAt..max] + buffer[..inAt]
    }

    /** _buf_next_in. */
    function NextIn(): nat {
      if inAt + 1 < max then inAt + 1 else 0
    }
  }

  /** The two spaces make up all of the buffer but one byte, and each is what its name says. */
  lemma Spaces(r: Ring)
    requires r.Ok()
    ensures r.Used() + r.Free() == r.max - 1 && 0 <= r.Used() && 0 <= r.Free()
    ensures r.Free() == 0 <==> r.NextIn() == r.outAt
    ensures r.Used() == 0 <==> r.inAt == r.outAt
  {
  }

  // ----- chunks -----

  /** The first chunk of _buf_put_iter: up to the next byte to be taken, or up to the end of the buffer. */
  function PutChunk(r: Ring, size: nat): (n: nat)
    requires r.Ok()
    ensures n <= size && r.inAt + n <= r.max
  {
    if r.outAt > r.inAt then Min(r.outAt - r.inAt - 1, size)
    else if r.max - r.inAt < size then r.max - r.inAt - (if r.outAt != 0 then 0 else 1) else size
  }

  /** The buffer with a chunk written where the next byte goes. */
  function Filled(r: Ring, bytes: seq<byte>): Ring
    requires r.Ok() && r.inAt + |bytes| <= r.max
  {
    r.(buffer := Overwrite(r.buffer, r.inAt, bytes), inAt := if r.inAt + |bytes| >= r.max then 0 else r.inAt + |bytes|)
  }

  /** After the first chunk: nothing is left to put, or no room. */
  predicate PutDone(r: Ring, left: int) {
    left <= 0 || r.inAt + 1 == r.outAt || r.inAt + 1 == r.max
  }

  /** The second chunk of _buf_put_iter, from the start of the buffer. */
  function PutRest(r: Ring, data: seq<byte>, n: nat): (Ring, nat)
    requires r.Ok() && n <= |data| && (PutDone(r, |data| - n) || r.inAt < r.outAt)
  {
    if PutDone(r, |data| - n) then (r, n)
    else
      var m := Min(r.outAt - r.inAt - 1, |data| - n);
      (r.(buffer := Overwrite(r.buffer, r.inAt, data[n..n + m]), inAt := r.inAt + m), n + m)
  }

  /** _buf_put_iter of the bytes an iterator has left: the buffer, and how many bytes were taken. */
  function PutIter(r: Ring, data: seq<byte>): (Ring, nat)
    requires r.Ok()
  {
    var n := PutChunk(r, |data|);
    PutRest(Filled(r, data[..n]), data, n)
  }

  /** _buf_get_iter into an iterator with room for `size` bytes: the buffer, and the bytes given. */
  function GetIter(r: Ring, size: nat): (g: (Ring, seq<byte>))
    requires r.Ok()
    ensures g.0.Ok() && g.0.max == r.max && g.0.inAt == r.inAt
  {
    var chunk1 := if r.inAt > r.outAt then Min(r.inAt - r.outAt, size) else Min(r.max - r.outAt, size);
    var out1 := if r.outAt + chunk1 >= r.max then 0 else r.outAt + chunk1;
    var bytes := r.buffer[r.outAt..r.outAt + chunk1];
    if size - chunk1 <= 0 || out1 == r.inAt then (r.(outAt := out1), bytes)
    else
      var chunk2 := Min(r.inAt - out1, size - chunk1);
      (r.(outAt := out1 + chunk2), bytes + r.buffer[out1..out1 + chunk2])
  }

  /** Appended as a FIFO queue with room for `free` bytes would. */
  ghost predicate Appended(r: Ring, data: seq<byte>, r': Ring, n: nat)
    requires r.Ok()
  {
    r'.Ok() && r'.max == r.max && r'.outAt == r.outAt && n == Min(r.Free(), |data|) && n <= |data|
      && r'.Contents() == r.Contents() + data[..n]
  }

  /** Taken from the front as from a FIFO queue. */
  ghost predicate Taken(r: Ring, size: nat, r': Ring, bytes: seq<byte>)
    requires r.Ok()
  {
    r'.Ok() && r'.max == r.max && r'.inAt == r.inAt && |bytes| == Min(r.Used(), size)
      && r.Contents() == bytes + r'.Contents()
  }

  /** One chunk below the end of the buffer. */
  lemma PutOne(r: Ring, data: seq<byte>, r': Ring)
    requires r.Ok() && |data| <= r.Free() && r.inAt + |data| < r.max
    requires r' == r.(buffer := Overwrite(r.buffer, r.inAt, data), inAt := r.inAt + |data|)
    ensures r'.Ok() && r'.Contents() == r.Contents() + data && r'.Free() == r.Free() - |data|
  {
    if r.inAt >= r.outAt {
      assert r'.buffer[r.outAt..r'.inAt] == r.buffer[r.outAt..r.inAt] + data;
    } else {
      assert r'.buffer[r.outAt..r.max] == r.buffer[r.outAt..r.max];
      assert r'.buffer[..r'.inAt] == r.buffer[..r.inAt] + data;
    }
  }

  /** One chunk up to the end, with the first byte of the buffer free. */
  lemma PutToEnd(r: Ring, data: seq<byte>, r': Ring)
    requires r.Ok() && r.inAt >= r.outAt > 0 && r.inAt + |data| == r.max
    requires r' == r.(buffer := Overwrite(r.buffer, r.inAt, data), inAt := 0)
    ensures r'.Ok() && r'.Contents() == r.Contents() + data && r'.Free() == r.Free() - |data|
  {
    assert r'.buffer[r.outAt..r.max] == r.buffer[r.outAt..r.inAt] + data;
  }

  /** A chunk up to the end and another from the start. */
  lemma PutTwo(r: Ring, a: seq<byte>, b: seq<byte>, r': Ring)
    requires r.Ok() && r.inAt >= r.outAt > 0 && r.inAt + |a| == r.max && |b| < r.outAt
    requires r' == r.(buffer := Overwrite(Overwrite(r.buffer, r.inAt, a), 0, b), inAt := |b|)
    ensures r'.Ok() && r'.Contents() == r.Contents() + (a + b) && r'.Free() == r.Free() - |a| - |b|
  {
    var r1 := r.(buffer := Overwrite(r.buffer, r.inAt, a), inAt := 0);
    PutToEnd(r, a, r1);
    PutOne(r1, b, r');
    Assoc(r.Contents(), a, b);
  }

  lemma PutIterWraps(r: Ring, data: seq<byte>, r': Ring, n: nat)
    requires r.Ok() && (r', n) == PutIter(r, data) && r.inAt >= r.outAt > 0 && r.inAt + |data| > r.max
    ensures var m, k := r.max - r.inAt, Min(r.outAt - 1, |data| - (r.max - r.inAt));
            n == m + k && r' == r.(buffer := Overwrite(Overwrite(r.buffer, r.inAt, data[..m]), 0, data[m..m + k]),
              inAt := k)
  {
    var m := r.max - r.inAt;
    var b := Overwrite(r.buffer, r.inAt, data[..m]);
    assert Overwrite(b, 0, data[m..m]) == b;
  }

  lemma WrapAppends(r: Ring, data: seq<byte>, r': Ring, n: nat, m: nat)
    requires r.Ok() && r.inAt >= r.outAt > 0 && m == r.max - r.inAt < |data| && n == m + Min(r.outAt - 1, |data| - m)
    requires r' == r.(buffer := Overwrite(Overwrite(r.buffer, r.inAt, data[..m]), 0, data[m..n]), inAt := n - m)
    ensures Appended(r, data, r', n)
  {
    PutTwo(r, data[..m], data[m..n], r');
    assert data[..n] == data[..m] + data[m..n];
  }

  lemma PutIterAppends(r: Ring, data: seq<byte>, r': Ring, n: nat)
    requires r.Ok() && (r', n) == PutIter(r, data) && !(r.outAt == 0 && |data| == r.max - r.inAt)
    ensures Appended(r, data, r', n)
  {
    if r.inAt >= r.outAt > 0 && r.inAt + |data| > r.max {
      PutIterWraps(r, data, r', n);
      WrapAppends(r, data, r', n, r.max - r.inAt);
    } else if r.inAt >= r.outAt > 0 && r.inAt + |data| == r.max {
      PutToEnd(r, data[..n], r');
    } else {
      PutOne(r, data[..n], r');
    }
  }

  /** _buf_put_iter appends as much as there is room for, unless the bytes exactly reach the end of a buffer
      whose first byte is the next to be taken: then the buffer is empty afterwards. */
  lemma PutIterIff(r: Ring, data: seq<byte>, r': Ring, n: nat)
    requires r.Ok() && (r', n) == PutIter(r, data)
    ensures Appended(r, data, r', n) <==> !(r.outAt == 0 && |data| == r.max - r.inAt)
    ensures r.outAt == 0 && |data| == r.max - r.inAt ==> r'.Ok() && r'.Contents() == []
  {
    if !(r.outAt == 0 && |data| == r.max - r.inAt) {
      PutIterAppends(r, data, r', n);
    }
  }

  /** _buf_get_iter takes what there is, up to the room there is, unless there is room but the buffer is empty. */
  lemma GetIterIff(r: Ring, size: nat, r': Ring, bytes: seq<byte>)
    requires r.Ok() && (r', bytes) == GetIter(r, size)
    ensures Taken(r, size, r', bytes) <==> !(r.inAt == r.outAt && size > 0)
  {
    if r.inAt != r.outAt || size == 0 {
      GetIterTakes(r, size, r', bytes);
    }
  }

  /**
   Read while empty, the buffer gives out old bytes, as many as asked for up to
   its whole size, and then seems to hold the rest of its size.
   */
  lemma StaleRead(r: Ring, size: nat, r': Ring, bytes: seq<byte>)
    requires r.Ok() && r.inAt == r.outAt && size > 0 && (r', bytes) == GetIter(r, size)
    ensures r'.Ok() && r'.max == r.max && r'.inAt == r.inAt
    ensures |bytes| == Min(size, r.max) && r'.Used() == r.max - |bytes|
  {
  }

  /** One chunk below the end of the buffer. */
  lemma TakeOne(r: Ring, n: nat, r': Ring)
    requires r.Ok() && n <= r.Used() && r.outAt + n < r.max && r' == r.(outAt := r.outAt + n)
    ensures r'.Ok() && r'.Used() == r.Used() - n && r.Contents() == r.buffer[r.outAt..r.outAt + n] + r'.Contents()
  {
  }

  /** One chunk up to the end. */
  lemma TakeToEnd(r: Ring, r': Ring)
    requires r.Ok() && r.inAt < r.outAt && r' == r.(outAt := 0)
    ensures r'.Ok() && r'.Used() == r.Used() - (r.max - r.outAt)
    ensures r.Contents() == r.buffer[r.outAt..r.max] + r'.Contents()
  {
  }

  lemma TakeTwo(r: Ring, n: nat, r': Ring)
    requires r.Ok() && r.inAt < r.outAt && n <= r.inAt && r' == r.(outAt := n)
    ensures r'.Ok() && r'.Used() == r.Used() - (r.max - r.outAt) - n
    ensures r.Contents() == r.buffer[r.outAt..r.max] + r.buffer[..n] + r'.Contents()
  {
    var r1 := r.(outAt := 0);
    TakeToEnd(r, r1);
    TakeOne(r1, n, r');
    Assoc(r.buffer[r.outAt..r.max], r.buffer[0..n], r'.Contents());
  }

  lemma GetIterWraps(r: Ring, size: nat, r': Ring, bytes: seq<byte>)
    requires r.Ok() && (r', bytes) == GetIter(r, size) && r.inAt < r.outAt && size >= r.max - r.outAt
    ensures var n := Min(r.inAt, size - (r.max - r.outAt));
            r' == r.(outAt := n) && bytes == r.buffer[r.outAt..r.max] + r.buffer[..n]
  {
  }

  lemma GetIterTakes(r: Ring, size: nat, r': Ring, bytes: seq<byte>)
    requires r.Ok() && (r', bytes) == GetIter(r, size) && (r.inAt != r.outAt || size == 0)
    ensures Taken(r, size, r', bytes)
  {
    if r.inAt < r.outAt && size >= r.max - r.outAt {
      GetIterWraps(r, size, r', bytes);
      TakeTwo(r, Min(r.inAt, size - (r.max - r.outAt)), r');
    } else {
      TakeOne(r, |bytes|, r');
    }
  }

  // ----- byte at a time -----

  /** One byte put. */
  lemma PutByte(r: Ring, b: byte, r': Ring)
    requires r.Ok() && r.Free() > 0 && r' == r.(buffer := r.buffer[r.inAt := b], inAt := r.NextIn())
    ensures r'.Ok() && r'.Contents() == r.Contents() + [b] && r'.Free() == r.Free() - 1
  {
  }

  /** A byte written where the next one goes changes nothing. */
  lemma ScratchByte(r: Ring, b: byte)
    requires r.Ok()
    ensures r.(buffer := r.buffer[r.inAt := b]).Contents() == r.Contents()
  {
  }

  /** One byte taken. */
  lemma GetByte(r: Ring, r': Ring)
    requires r.Ok() && r.Used() > 0 && r' == r.(outAt := if r.outAt + 1 >= r.max then 0 else r.outAt + 1)
    ensures r'.Ok() && r.Contents() == [r.buffer[r.outAt]] + r'.Contents()
  {
  }

  /** The first `n` bytes of `data` are in the buffer. */
  ghost predicate Partly(was: Ring, data: seq<byte>, r: Ring, n: nat)
    requires was.Ok() && r.Ok()
  {
    n <= |data| && r.max == was.max && r.outAt == was.outAt && r.Contents() == was.Contents() + data[..n]
      && r.Free() == was.Free() - n
  }

  /**
   _buf_put from byte `i` on: the buffer, and how many bytes were put. A byte
   is written before it is known whether there is room for it.
   */
  function PutBytes(r: Ring, data: seq<byte>, i: nat): (p: (Ring, nat))
    requires r.Ok() && i <= |data|
    ensures p.0.Ok() && p.0.max == r.max && p.0.outAt == r.outAt && i <= p.1 <= |data|
    decreases |data| - i
  {
    if i == |data| then (r, i)
    else
      var written := r.(buffer := r.buffer[r.inAt := data[i]]);
      if r.NextIn() == r.outAt then (written, i) else PutBytes(written.(inAt := r.NextIn()), data, i + 1)
  }

  /** Byte by byte, as much is appended as there is room for. */
  lemma {:induction false} PutBytesAppends(was: Ring, data: seq<byte>, r: Ring, i: nat, r': Ring, n: nat)
    requires was.Ok() && r.Ok() && Partly(was, data, r, i) && (r', n) == PutBytes(r, data, i)
    ensures Appended(was, data, r', n)
    decreases |data| - i
  {
    Spaces(r);
    if i < |data| {
      var written := r.(buffer := r.buffer[r.inAt := data[i]]);
      if r.NextIn() == r.outAt {
        ScratchByte(r, data[i]);
      } else {
        PutByte(r, data[i], written.(inAt := r.NextIn()));
        assert data[..i + 1] == data[..i] + [data[i]];
        PutBytesAppends(was, data, written.(inAt := r.NextIn()), i + 1, r', n);
      }
    }
  }

  /** _buf_put appends as much as there is room for. */
  lemma PutAppends(r: Ring, data: seq<byte>)
    requires r.Ok()
    ensures Appended(r, data, PutBytes(r, data, 0).0, PutBytes(r, data, 0).1)
  {
    assert data[..0] == [];
    PutBytesAppends(r, data, r, 0, PutBytes(r, data, 0).0, PutBytes(r, data, 0).1);
  }

  /** struct ringbuffer. */
  class Buffer {
    var max: nat
    var inAt: nat
    var outAt: nat
    const buffer: array<byte>

    ghost predicate Valid()
      reads this, buffer
    {
      View().Ok()
    }

    ghost function View(): Ring
      reads this, buffer
    {
      Ring(max, inAt, outAt, buffer[..])
    }

    /** _buf_init of a buffer of `size` bytes. */
    constructor (size: nat)
      requires size >= 2
      ensures Valid() && fresh(buffer) && View().Contents() == [] && View().Free() == size - 1
    {
      buffer := new byte[size](_ => 0);
      max, inAt, outAt := size, 0, 0;
    }

    /** _buf_put. */
    method Put(data: seq<byte>) returns (n: nat)
      requires Valid()
      modifies this`inAt, buffer
      ensures Valid() && (View(), n) == PutBytes(old(View()), data, 0)
      ensures Appended(old(View()), data, View(), n)
    {
      ghost var goal := PutBytes(View(), data, 0);
      PutAppends(View(), data);
      n := 0;
      while n < |data|
        invariant Valid() && n <= |data| && PutBytes(View(), data, n) == goal
      {
        ghost var r := View();
        buffer[inAt] := data[n];
        assert View() == r.(buffer := r.buffer[r.inAt := data[n]]);
        var next := if inAt + 1 < max then inAt + 1 else 0;
        if next == outAt {
          return;
        }
        inAt := next;
        n := n + 1;
      }
    }

    /** _buf_get_char: the byte at the front, if there is one. */
    method GetChar(ghost was: Ring, ghost taken: seq<byte>) returns (b: Option<byte>, ghost taken': seq<byte>)
      requires Valid() && was.Ok() && View() == was.(outAt := outAt) && was.Contents() == taken + View().Contents()
      modifies this`outAt
      ensures Valid() && View() == was.(outAt := outAt) && was.Contents() == taken' + View().Contents()
      ensures if old(View()).Used() == 0 then b == None && taken' == taken && View() == old(View())
              else b.Some? && taken' == taken + [b.value]
    {
      ghost var r := View();
      Spaces(r);
      if outAt == inAt {
        return None, taken;
      }
      b := Some(buffer[outAt]);
      outAt := outAt + 1;
      if outAt >= max {
        outAt := 0;
      }
      GetByte(r, View());
      taken' := taken + [b.value];
    }

    /** _buf_get: up to `size` bytes from the front. */
    method Get(size: nat) returns (bytes: seq<byte>)
      requires Valid()
      modifies this`outAt
      ensures Valid() && Taken(old(View()), size, View(), bytes)
    {
      ghost var was, taken := View(), [];
      bytes := [];
      while |bytes| < size
        invariant Valid() && |bytes| <= size && bytes == taken && View() == was.(outAt := outAt)
        invariant was.Contents() == taken + View().Contents()
        decreases size - |bytes|
      {
        var b;
        b, taken := GetChar(was, taken);
        if b.None? {
          return;
        }
        bytes := bytes + [b.value];
      }
      Spaces(View());
    }

    /** memcpy_out_of_iter into the buffer. */
    method CopyIn(at: nat, bytes: seq<byte>)
      requires at + |bytes| <= buffer.Length
      modifies buffer
      ensures buffer[..] == Overwrite(old(buffer[..]), at, bytes)
    {
      for i := 0 to |bytes|
        invariant forall j :: 0 <= j < buffer.Length ==> buffer[j] == if at <= j < at + i then bytes[j - at]
                  else old(buffer[j])
      {
        buffer[at + i] := bytes[i];
      }
    }

    /** _buf_put_iter. */
    method PutFrom(data: seq<byte>) returns (n: nat)
      requires Valid()
      modifies this`inAt, buffer
      ensures (View(), n) == PutIter(old(View()), data)
    {
      n := PutFirst(data);
      n := PutSecond(data, n);
    }

    method PutSecond(data: seq<byte>, chunk1: nat) returns (n: nat)
      requires Valid() && chunk1 <= |data| && (PutDone(View(), |data| - chunk1) || inAt < outAt)
      modifies this`inAt, buffer
      ensures (View(), n) == PutRest(old(View()), data, chunk1)
    {
      var size := |data| - chunk1;
      if size <= 0 || inAt + 1 == outAt || inAt + 1 == max {
        return chunk1;
      }
      var chunk2 := if outAt - inAt - 1 < size then outAt - inAt - 1 else size;
      CopyIn(inAt, data[chunk1..chunk1 + chunk2]);
      inAt := inAt + chunk2;
      return chunk1 + chunk2;
    }

    method PutFirst(data: seq<byte>) returns (chunk1: nat)
      requires Valid()
      modifies this`inAt, buffer
      ensures chunk1 == PutChunk(old(View()), |data|) && View() == Filled(old(View()), data[..chunk1])
    {
      var size := |data|;
      if outAt > inAt {
        chunk1 := if outAt - inAt - 1 < size then outAt - inAt - 1 else size;
      } else {
        chunk1 := if max - inAt < size then max - inAt - (if outAt != 0 then 0 else 1) else size;
      }
      CopyIn(inAt, data[..chunk1]);
      inAt := inAt + chunk1;
      if inAt >= max {
        inAt := 0;
      }
    }

    /** _buf_get_iter. */
    method GetInto(room: nat) returns (bytes: seq<byte>)
      requires Valid()
      modifies this`outAt
      ensures (View(), bytes) == GetIter(old(View()), room)
    {
      var size, chunk1 := room, 0;
      if inAt > outAt {
        chunk1 := if inAt - outAt < size then inAt - outAt else size;
      } else {
        chunk1 := if max - outAt < size then max - outAt else size;
      }
      bytes := buffer[outAt..outAt + chunk1];
      outAt := outAt + chunk1;
      if outAt >= max {
        outAt := 0;
      }
      size := size - chunk1;
      if size <= 0 || outAt == inAt {
        return;
      }
      var chunk2 := if inAt - outAt < size then inAt - outAt else size;
      bytes := bytes + buffer[outAt..outAt + chunk2];
      outAt := outAt + chunk2;
    }

    /** _buf_drop. */
    method Drop(size: nat) returns (n: nat)
      requires Valid()
      modifies this`outAt
      ensures Valid() && n == Min(old(View()).Used(), size) && View() == old(View()).(outAt := outAt)
      ensures View().Contents() == old(View()).Contents()[n..]
    {
      ghost var r := View();
      var avail := if inAt >= outAt then inAt - outAt else max - outAt + inAt;
      n := if size > avail then avail else size;
      outAt := outAt + n;
      if outAt >= max {
        outAt := outAt - max;
        TakeTwo(r, outAt, View());
      } else {
        TakeOne(r, n, View());
      }
    }
  }
}
