/**
 * The scatter/gather iterator (iovec.c): a position in a list of buffers, some of which may be empty, that behaves as a
 * cursor over their concatenation.
 */
module Iovec {
  import opened Common

  // ----- the concatenation -----

  /** The total length of the first `k` segments. */
  function Prefix(segs: seq<seq<byte>>, k: nat): nat
    requires k <= |segs|
  {
    if k == 0 then 0 else Prefix(segs, k - 1) + |segs[k - 1]|
  }

  /** The first `k` segments, one after the other. */
  function Joined(segs: seq<seq<byte>>, k: nat): (flat: seq<byte>)
    requires k <= |segs|
    ensures |flat| == Prefix(segs, k)
  {
    if k == 0 then [] else Joined(segs, k - 1) + segs[k - 1]
  }

  function Flat(segs: seq<seq<byte>>): (flat: seq<byte>)
    ensures |flat| == Prefix(segs, |segs|)
  {
    Joined(segs, |segs|)
  }

  lemma {:induction false} PrefixMonotone(segs: seq<seq<byte>>, j: nat, k: nat)
    requires j <= k <= |segs|
    ensures Prefix(segs, j) <= Prefix(segs, k)
  {
    if j < k {
      PrefixMonotone(segs, j, k - 1);
    }
  }

  /** Segment `k` is where its prefix says. */
  lemma {:induction false} JoinedAt(segs: seq<seq<byte>>, k: nat, n: nat)
    requires k < n <= |segs|
    ensures Prefix(segs, k) + |segs[k]| <= Prefix(segs, n)
    ensures Joined(segs, n)[Prefix(segs, k)..Prefix(segs, k) + |segs[k]|] == segs[k]
  {
    if k < n - 1 {
      JoinedAt(segs, k, n - 1);
    }
  }

  /** Segments of the same lengths. */
  predicate SameShape(segs: seq<seq<byte>>, segs': seq<seq<byte>>) {
    |segs'| == |segs| && forall i :: 0 <= i < |segs| ==> |segs'[i]| == |segs[i]|
  }

  lemma {:induction false} PrefixSame(segs: seq<seq<byte>>, segs': seq<seq<byte>>, k: nat)
    requires k <= |segs| && SameShape(segs, segs')
    ensures Prefix(segs, k) == Prefix(segs', k)
  {
    if k > 0 {
      PrefixSame(segs, segs', k - 1);
    }
  }

  lemma {:induction false} JoinedSame(segs: seq<seq<byte>>, segs': seq<seq<byte>>, k: nat)
    requires k <= |segs| == |segs'| && forall i :: 0 <= i < k ==> segs[i] == segs'[i]
    ensures Joined(segs, k) == Joined(segs', k)
  {
    if k > 0 {
      JoinedSame(segs, segs', k - 1);
    }
  }

  /** Bytes written into one segment are written into the whole at the same place. */
  lemma {:induction false} JoinedWrite(segs: seq<seq<byte>>, k: nat, off: nat, bytes: seq<byte>,
      segs': seq<seq<byte>>, n: nat)
    requires k < n <= |segs| && off + |bytes| <= |segs[k]| && segs' == segs[k := Overwrite(segs[k], off, bytes)]
    ensures Prefix(segs, k) + off + |bytes| <= Prefix(segs, n)
    ensures Joined(segs', n) == Overwrite(Joined(segs, n), Prefix(segs, k) + off, bytes)
  {
    if k == n - 1 {
      JoinedSame(segs, segs', k);
    } else {
      JoinedWrite(segs, k, off, bytes, segs', n - 1);
      PrefixSame(segs, segs', n - 1);
    }
  }

  // ----- the cursor it refines -----

  /** A byte sequence and a position in it. */
  datatype Cursor = Cursor(flat: seq<byte>, pos: nat) {
    predicate Ok() {
      pos <= |flat| < WORD32 / 2
    }
  }

  /** How many of `n` bytes there is room for. */
  function Room(c: Cursor, n: nat): (m: nat)
    requires c.Ok()
    ensures m <= n && c.pos + m <= |c.flat|
  {
    if n < |c.flat| - c.pos then n else |c.flat| - c.pos
  }

  /** memcpy_into_iter. */
  function Written(c: Cursor, data: seq<byte>): Cursor
    requires c.Ok()
  {
    var n := Room(c, |data|);
    Cursor(Overwrite(c.flat, c.pos, data[..n]), c.pos + n)
  }

  /** memcpy_out_of_iter. */
  function Read(c: Cursor, n: nat): (Cursor, seq<byte>)
    requires c.Ok()
  {
    (c.(pos := c.pos + Room(c, n)), c.flat[c.pos..c.pos + Room(c, n)])
  }

  /** iovec_iter_push_back: seek back, write, and stay. */
  function PushedBack(c: Cursor, value: seq<byte>): Cursor
    requires c.Ok() && |value| < WORD32
  {
    var at := SeekTarget(|c.flat|, c.pos, (-|value|) % WORD32, Cur).value;
    Cursor(Written(c.(pos := at), value).flat, at)
  }

  /** What is written is read back from where it was written, and nothing else has changed. */
  lemma WriteRewindRead(c: Cursor, data: seq<byte>)
    requires c.Ok()
    ensures var n := Room(c, |data|); var c' := Written(c, data);
            c'.Ok() && Read(c'.(pos := c.pos), n) == (c', data[..n]) && c'.flat[..c.pos] == c.flat[..c.pos]
              && c'.flat[c.pos + n..] == c.flat[c.pos + n..]
  {
  }

  /** Pushing back writes exactly the bytes just below the cursor, and leaves it below them, if and only if
      there are that many: otherwise it goes to the end and writes nothing. */
  lemma PushBackIff(c: Cursor, value: seq<byte>)
    requires c.Ok() && |value| < WORD32 / 2
    ensures PushedBack(c, value) == (if |value| <= c.pos then
            Cursor(Overwrite(c.flat, c.pos - |value|, value), c.pos - |value|) else Cursor(c.flat, |c.flat|))
  {
    BackTarget(c.pos, |value|);
    if |value| <= c.pos {
      assert value[..|value|] == value;
    }
  }

  /** Seeking back by the two's complement of a size. */
  lemma BackTarget(pos: int, size: int)
    requires 0 <= pos < WORD32 / 2 && 0 <= size < WORD32 / 2
    ensures (pos + (-size) % WORD32) % WORD32 == if size <= pos then pos - size else pos - size + WORD32
  {
  }

  // ----- the code -----

  class Iter {
    var segs: seq<seq<byte>>
    var length: nat
    var segStart: nat
    var segOffset: nat
    var curSeg: nat

    ghost predicate Valid()
      reads this
    {
      && curSeg < |segs| && length == Prefix(segs, |segs|) && length < WORD32 / 2
      && segStart == Prefix(segs, curSeg) && segOffset <= |segs[curSeg]| && segStart + segOffset <= length
    }

    ghost function View(): Cursor
      reads this
    {
      Cursor(Flat(segs), segStart + segOffset)
    }

    /** iovec_iter_init_kvec. */
    constructor (segs: seq<seq<byte>>)
      requires segs != [] && Prefix(segs, |segs|) < WORD32 / 2
      ensures Valid() && View() == Cursor(Flat(segs), 0)
    {
      var n := 0;
      for i := 0 to |segs|
        invariant n == Prefix(segs, i)
      {
        n := n + |segs[i]|;
      }
      this.segs, length, segStart, segOffset, curSeg := segs, n, 0, 0, 0;
    }

    /** The walk of iovec_iter_seek, forwards or backwards, to the segment that position `to` is in. */
    method MoveTo(to: nat)
      requires Valid() && to <= length
      modifies this`segStart, this`segOffset, this`curSeg
      ensures Valid() && View() == old(View()).(pos := to)
    {
      if to >= segStart + segOffset {
        while curSeg < |segs| - 1 && to >= segStart + |segs[curSeg]|
          invariant curSeg < |segs| && segStart == Prefix(segs, curSeg) && segStart <= to
          decreases |segs| - curSeg
        {
          segStart := segStart + |segs[curSeg]|;
          curSeg := curSeg + 1;
        }
      } else {
        while curSeg > 0 && to < segStart
          invariant curSeg < |segs| && segStart == Prefix(segs, curSeg) && to <= segStart + |segs[curSeg]|
        {
          curSeg := curSeg - 1;
          segStart := segStart - |segs[curSeg]|;
        }
      }
      segOffset := to - segStart;
    }

    /** iovec_iter_seek. */
    method Seek(offset: nat, whence: Whence) returns (r: Option<nat>)
      requires Valid()
      modifies this`segStart, this`segOffset, this`curSeg
      ensures Valid() && r == SeekTarget(|old(View()).flat|, old(View()).pos, offset, whence)
      ensures View() == if r.Some? then old(View()).(pos := r.value) else old(View())
    {
      var to := offset;
      match whence {
        case Set =>
        case Cur =>
          to := (segStart + segOffset + offset) % WORD32;
        case End =>
          to := (length + offset) % WORD32;
        case Other =>
          return None;
      }
      if to > length {
        to := length;
      }
      MoveTo(to);
      return Some(to);
    }

    /** The seek past `n` bytes that were copied. */
    method Advance(n: nat)
      requires Valid() && View().pos + n <= length
      modifies this`segStart, this`segOffset, this`curSeg
      ensures Valid() && View() == old(View()).(pos := old(View()).pos + n)
    {
      if n > 0 {
        var _ := Seek(n, Cur);
      }
    }

    /** memcpy_into_kvec, from a segment and an offset in it on. */
    method CopyIn(seg: nat, offset: nat, data: seq<byte>) returns (n: nat)
      requires seg < |segs| && offset <= |segs[seg]| && length == Prefix(segs, |segs|)
      modifies this`segs
      ensures SameShape(old(segs), segs)
      ensures var at := Prefix(old(segs), seg) + offset;
              n == Min(|data|, length - at) && Pasted(segs, Flat(old(segs)), at, data, n)
    {
      var cur: nat, off: nat := seg, offset;
      n := 0;
      ghost var flat, at := Flat(segs), Prefix(segs, seg) + offset;
      PrefixMonotone(segs, seg + 1, |segs|);
      while true
        invariant SameShape(old(segs), segs)
        invariant cur < |segs| && off <= |segs[cur]| && Prefix(old(segs), cur) + off == at + n
        invariant (n == 0 || n < |data|) && Pasted(segs, flat, at, data, n)
        decreases |segs| - cur, |segs[cur]| - off
      {
        if off >= |segs[cur]| {
          if cur + 1 >= |segs| {
            break;
          }
          cur, off := cur + 1, 0;
        }
        var chunk := if |data| - n < |segs[cur]| - off then |data| - n else |segs[cur]| - off;
        PrefixSame(old(segs), segs, cur);
        n := CopyChunk(cur, off, data, n, chunk, at, flat);
        off := off + chunk;
        if n >= |data| {
          return;
        }
      }
    }

    /** One memcpy into one segment. */
    method CopyChunk(cur: nat, off: nat, data: seq<byte>, n: nat, chunk: nat, ghost at: nat, ghost flat: seq<byte>)
        returns (n': nat)
      requires cur < |segs| && off + chunk <= |segs[cur]| && n + chunk <= |data|
      requires Prefix(segs, cur) + off == at + n && Pasted(segs, flat, at, data, n)
      modifies this`segs
      ensures SameShape(old(segs), segs)
      ensures n' == n + chunk && Pasted(segs, flat, at, data, n')
    {
      n' := n + chunk;
      ghost var was := segs;
      segs := segs[cur := Overwrite(segs[cur], off, data[n..n + chunk])];
      JoinedWrite(was, cur, off, data[n..n + chunk], segs, |segs|);
      assert data[..n + chunk] == data[..n] + data[n..n + chunk];
    }

    /** memcpy_out_of_kvec. */
    method CopyOut(seg: nat, offset: nat, size: nat) returns (bytes: seq<byte>)
      requires seg < |segs| && offset <= |segs[seg]| && length == Prefix(segs, |segs|)
      ensures var at := Prefix(segs, seg) + offset; |bytes| == Min(size, length - at) && Copied(segs, at, bytes)
    {
      var cur: nat, off: nat := seg, offset;
      bytes := [];
      ghost var at := Prefix(segs, seg) + offset;
      PrefixMonotone(segs, seg + 1, |segs|);
      while true
        invariant cur < |segs| && off <= |segs[cur]| && Prefix(segs, cur) + off == at + |bytes|
        invariant |bytes| <= size && (bytes == [] || |bytes| < size) && Copied(segs, at, bytes)
        decreases |segs| - cur, |segs[cur]| - off
      {
        if off >= |segs[cur]| {
          if cur + 1 >= |segs| {
            break;
          }
          cur, off := cur + 1, 0;
        }
        var chunk := if size - |bytes| < |segs[cur]| - off then size - |bytes| else |segs[cur]| - off;
        ghost var before := bytes;
        bytes := bytes + segs[cur][off..off + chunk];
        ChunkOf(segs, cur, off, chunk, at, before, bytes);
        off := off + chunk;
        if |bytes| >= size {
          return;
        }
      }
    }

    /** The copy of memcpy_into_iter, without the seek after it. */
    method WriteHere(data: seq<byte>) returns (n: nat)
      requires Valid()
      modifies this`segs
      ensures Valid() && n == Room(old(View()), |data|)
      ensures View() == old(View()).(flat := Written(old(View()), data).flat) && SameShape(old(segs), segs)
    {
      var bytes := if |data| < length - segStart - segOffset then |data| else length - segStart - segOffset;
      n := CopyIn(curSeg, segOffset, data[..bytes]);
      PrefixSame(old(segs), segs, curSeg);
      PrefixSame(old(segs), segs, |segs|);
      assert data[..bytes][..n] == data[..bytes];
    }

    /** memcpy_into_iter. */
    method Write(data: seq<byte>) returns (n: nat)
      requires Valid() && |data| < WORD32
      modifies this
      ensures Valid() && View() == Written(old(View()), data) && n == Room(old(View()), |data|)
      ensures SameShape(old(segs), segs)
    {
      n := WriteHere(data);
      Advance(n);
    }

    /** memcpy_out_of_iter. */
    method Take(size: nat) returns (bytes: seq<byte>)
      requires Valid() && size < WORD32
      modifies this`segStart, this`segOffset, this`curSeg
      ensures Valid() && (View(), bytes) == Read(old(View()), size)
    {
      var n := if size < length - segStart - segOffset then size else length - segStart - segOffset;
      bytes := CopyOut(curSeg, segOffset, n);
      Advance(|bytes|);
    }

    /** iovec_iter_push_back. */
    method PushBack(value: seq<byte>)
      requires Valid() && |value| < WORD32
      modifies this
      ensures Valid() && View() == PushedBack(old(View()), value)
    {
      var _ := Seek((-|value|) % WORD32, Cur);
      ghost var c := View();
      var cur, start, offset := curSeg, segStart, segOffset;
      ghost var was := segs;
      var _ := Write(value);
      PrefixSame(was, segs, cur);
      PrefixSame(was, segs, |segs|);
      curSeg, segStart, segOffset := cur, start, offset;
    }
  }

  /** The whole is `flat` with the first `n` bytes of `data` written at `at`. */
  ghost predicate Pasted(segs: seq<seq<byte>>, flat: seq<byte>, at: nat, data: seq<byte>, n: nat) {
    n <= |data| && at + n <= |flat| && Flat(segs) == Overwrite(flat, at, data[..n])
  }

  /** `bytes` are those of the whole from `at` on. */
  ghost predicate Copied(segs: seq<seq<byte>>, at: nat, bytes: seq<byte>) {
    at + |bytes| <= |Flat(segs)| && bytes == Flat(segs)[at..at + |bytes|]
  }

  /** The next chunk of a segment continues what has been read of the whole. */
  lemma ChunkOf(segs: seq<seq<byte>>, cur: nat, off: nat, chunk: nat, at: nat, bytes: seq<byte>, bytes': seq<byte>)
    requires cur < |segs| && off + chunk <= |segs[cur]| && Prefix(segs, cur) + off == at + |bytes|
    requires Copied(segs, at, bytes)
    requires bytes' == bytes + segs[cur][off..off + chunk]
    ensures Copied(segs, at, bytes')
  {
    JoinedAt(segs, cur, |segs|);
    SubSlice(Flat(segs), Prefix(segs, cur), |segs[cur]|, off, chunk);
  }

  lemma SubSlice(s: seq<byte>, p: nat, len: nat, off: nat, chunk: nat)
    requires p + len <= |s| && off + chunk <= len
    ensures s[p..p + len][off..off + chunk] == s[p + off..p + off + chunk]
  {
    var a, b := s[p..p + len][off..off + chunk], s[p + off..p + off + chunk];
    forall i | 0 <= i < chunk
      ensures a[i] == b[i]
    {
      assert a[i] == s[p..p + len][off + i];
    }
  }
}
