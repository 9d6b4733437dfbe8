/**
 * Reading and writing files of a Minix file system (minix.c): a file in zones is a flat byte sequence.
 */
module MinixFile {
  import opened Common
  import opened MinixZones
  import Flags

  /** Zone number `znum` of a file exists. */
  predicate Mapped(fs: Fs, ino: nat, znum: nat) {
    znum < MAX_ZONES && ZoneOf(fs, PlaceOf(ino, znum).value) != 0
  }

  function ByteAt(fs: Fs, ino: nat, x: nat): byte {
    if Mapped(fs, ino, x / ZONE_SIZE) && IsZone(Contents(fs, PlaceOf(ino, x / ZONE_SIZE).value)) then
      Contents(fs, PlaceOf(ino, x / ZONE_SIZE).value)[x % ZONE_SIZE]
    else 0
  }

  /** How a write ends: ENOSPC, EIO, or about to write to a block that is not the file's. */
  datatype Ending = Complete | NoSpace | IoError | Lost

  function Lookup(fs: Fs, ino: nat, znum: nat): (Fs, Found) {
    match PlaceOf(ino, znum)
    case None => (fs, Full)
    case Some(p) => Descend(fs, p)
  }

  /** One round of minix_write's loop: the bytes accepted, and whether that went well. The model ends where a
      block of others is written. */
  function WriteRound(fs: Fs, ino: nat, pos: nat, data: seq<byte>): (r: (Fs, nat, Ending))
    ensures r.1 <= |data| && (r.2.Complete? && data != [] ==> r.1 > 0)
  {
    var (fs1, found) := Lookup(fs, ino, pos / ZONE_SIZE);
    match found
    case Full => (fs1, 0, NoSpace)
    case Astray(z) => (fs1, 0, if z in fs1.disk then Lost else IoError)
    case Zone(z) =>
      var zlen := Min(ZONE_SIZE - pos % ZONE_SIZE, |data|);
      if z !in fs1.disk || !IsZone(fs1.disk[z]) then (fs1, 0, IoError)
      else (WriteZone(fs1, z, pos % ZONE_SIZE, data[..zlen]), zlen, Complete)
  }

  /** minix_write's loop. */
  function WriteFrom(fs: Fs, ino: nat, pos: nat, data: seq<byte>): (r: (Fs, nat, Ending))
    ensures r.1 <= |data|
    decreases |data|
  {
    var (fs1, n, ending) := WriteRound(fs, ino, pos, data);
    if !ending.Complete? || n == |data| then (fs1, n, ending)
    else
      var (fs2, w, ending) := WriteFrom(fs1, ino, pos + n, data[n..]);
      (fs2, n + w, ending)
  }

  /** The loop, from here on, accepts `w` bytes and comes to that. */
  ghost predicate Writes(fs: Fs, ino: nat, pos: nat, data: seq<byte>, fs': Fs, w: nat, ending: Ending) {
    (fs', w, ending) == WriteFrom(fs, ino, pos, data)
  }

  /** It is a round, and if that was complete and there is more to write, the loop from there on. */
  lemma Unrolled(fs: Fs, ino: nat, pos: nat, data: seq<byte>, fs1: Fs, n: nat, ending1: Ending, fs': Fs, w: nat,
      ending: Ending)
    requires (fs1, n, ending1) == WriteRound(fs, ino, pos, data) && Writes(fs, ino, pos, data, fs', w, ending)
    ensures n <= |data|
    ensures if ending1.Complete? && n < |data| then n <= w && Writes(fs1, ino, pos + n, data[n..], fs', w - n, ending)
            else (fs', w, ending) == (fs1, n, ending1)
  {
    hide WriteRound;
  }

  /** Byte `x` of file `j` is as it was. */
  ghost predicate ByteKept(fs: Fs, fs': Fs, j: nat, x: nat) {
    (Mapped(fs, j, x / ZONE_SIZE) ==> Mapped(fs', j, x / ZONE_SIZE)) && ByteAt(fs', j, x) == ByteAt(fs, j, x)
  }

  /** Zone `n` of file `j` appears only with the bytes [pos, end) of file `ino`. */
  ghost predicate ZoneKept(fs: Fs, fs': Fs, ino: nat, pos: nat, end: nat, j: nat, n: nat) {
    && (Mapped(fs, j, n) ==> Mapped(fs', j, n))
    && (Mapped(fs', j, n) ==> Mapped(fs, j, n) || (j == ino && pos / ZONE_SIZE <= n <= end / ZONE_SIZE))
  }

  ghost predicate ZonesKept(fs: Fs, fs': Fs, ino: nat, pos: nat, end: nat) {
    forall j: nat, n: nat :: ZoneKept(fs, fs', ino, pos, end, j, n)
  }

  ghost predicate SameFiles(fs: Fs, fs': Fs) {
    fs'.inodes.Keys == fs.inodes.Keys && forall ino :: ino in fs.inodes ==> fs'.inodes[ino].size == fs.inodes[ino].size
  }

  /** What writing `w` bytes of `data` at `pos` does. */
  ghost predicate Wrote(fs: Fs, ino: nat, pos: nat, data: seq<byte>, w: nat, fs': Fs) {
    && w <= |data| && SameFiles(fs, fs')
    && (forall x :: pos <= x < pos + w ==> Mapped(fs', ino, x / ZONE_SIZE) && ByteAt(fs', ino, x) == data[x - pos])
    && (forall j: nat, x: nat :: !(j == ino && pos <= x < pos + w) ==> ByteKept(fs, fs', j, x))
    && ZonesKept(fs, fs', ino, pos, pos + w)
  }

  /** Zones are where they were, and no zone is added but number `znum` of file `ino`. */
  ghost predicate OnlyAdds(fs: Fs, fs': Fs, ino: nat, znum: nat, j: nat, n: nat) {
    && (Mapped(fs, j, n) ==> Mapped(fs', j, n))
    && (Mapped(fs', j, n) ==> Mapped(fs, j, n) || (j == ino && n == znum))
  }

  /** Looking a zone up, creating it if need be, changes no byte of any file. */
  lemma LookupKeeps(fs: Fs, ino: nat, znum: nat, fs': Fs, found: Found)
    requires Good(fs) && ino in fs.inodes && (fs', found) == Lookup(fs, ino, znum)
    ensures Good(fs') && SameFiles(fs, fs')
    ensures forall j: nat, x: nat :: ByteKept(fs, fs', j, x)
    ensures forall j: nat, n: nat :: OnlyAdds(fs, fs', ino, znum, j, n)
    ensures if found.Zone? then Mapped(fs', ino, znum) && ZoneOf(fs', PlaceOf(ino, znum).value) == found.z
            else !Mapped(fs', ino, znum)
  {
    if znum < MAX_ZONES {
      var p := PlaceOf(ino, znum).value;
      DescendEffect(fs, p, fs', found);
      forall j: nat, n: nat
        ensures OnlyAdds(fs, fs', ino, znum, j, n)
        ensures Mapped(fs, j, n) ==> Contents(fs', PlaceOf(j, n).value) == Contents(fs, PlaceOf(j, n).value)
        ensures !Mapped(fs, j, n) && Mapped(fs', j, n) ==> Contents(fs', PlaceOf(j, n).value) == ZeroZone()
      {
        if n < MAX_ZONES {
          var q := PlaceOf(j, n).value;
          assert Kept(fs, fs', p, q);
          PlaceBijective(ino, znum, p);
          PlaceBijective(j, n, q);
        }
      }
      forall j: nat, x: nat
        ensures ByteKept(fs, fs', j, x)
      {
        assert OnlyAdds(fs, fs', ino, znum, j, x / ZONE_SIZE);
      }
    }
  }

  /** Writing into a mapped zone. */
  lemma WriteZoneBytes(fs: Fs, ino: nat, pos: nat, bytes: seq<byte>, z: nat, fs': Fs)
    requires Good(fs) && Mapped(fs, ino, pos / ZONE_SIZE) && z == ZoneOf(fs, PlaceOf(ino, pos / ZONE_SIZE).value)
    requires z in fs.disk && IsZone(fs.disk[z]) && pos % ZONE_SIZE + |bytes| <= ZONE_SIZE
    requires fs' == WriteZone(fs, z, pos % ZONE_SIZE, bytes)
    ensures Good(fs') && Wrote(fs, ino, pos, bytes, |bytes|, fs')
    ensures forall j: nat, n: nat :: Mapped(fs', j, n) == Mapped(fs, j, n)
  {
    var p := PlaceOf(ino, pos / ZONE_SIZE).value;
    WriteZoneGood(fs, p, pos % ZONE_SIZE, bytes, fs');
    forall j: nat, n: nat
      ensures Mapped(fs', j, n) == Mapped(fs, j, n)
      ensures Mapped(fs, j, n) && !(j == ino && n == pos / ZONE_SIZE) ==>
              Contents(fs', PlaceOf(j, n).value) == Contents(fs, PlaceOf(j, n).value)
    {
      if n < MAX_ZONES {
        var q := PlaceOf(j, n).value;
        WriteZoneSame(fs, p, pos % ZONE_SIZE, bytes, fs', q);
        PlaceBijective(ino, pos / ZONE_SIZE, p);
        PlaceBijective(j, n, q);
      }
    }
    WriteZoneSame(fs, p, pos % ZONE_SIZE, bytes, fs', p);
    assert Contents(fs', p) == Overwrite(Contents(fs, p), pos % ZONE_SIZE, bytes);
    forall x | pos <= x < pos + |bytes|
      ensures Mapped(fs', ino, x / ZONE_SIZE) && ByteAt(fs', ino, x) == bytes[x - pos]
    {
      assert x / ZONE_SIZE == pos / ZONE_SIZE && x % ZONE_SIZE == pos % ZONE_SIZE + (x - pos);
    }
    forall j: nat, x: nat | !(j == ino && pos <= x < pos + |bytes|)
      ensures ByteKept(fs, fs', j, x)
    {
      if j == ino && x / ZONE_SIZE == pos / ZONE_SIZE {
        assert x % ZONE_SIZE == pos % ZONE_SIZE + (x - pos);
      }
    }
  }

  lemma WroteTrans(fs: Fs, fs1: Fs, fs2: Fs, ino: nat, pos: nat, data: seq<byte>, n: nat, w: nat, total: nat)
    requires n <= |data| && Wrote(fs, ino, pos, data[..n], n, fs1) && Wrote(fs1, ino, pos + n, data[n..], w, fs2)
    requires total == n + w
    ensures Wrote(fs, ino, pos, data, total, fs2)
  {
    forall x | pos <= x < pos + n + w
      ensures Mapped(fs2, ino, x / ZONE_SIZE) && ByteAt(fs2, ino, x) == data[x - pos]
    {
      if x < pos + n {
        assert data[..n][x - pos] == data[x - pos] && ByteKept(fs1, fs2, ino, x);
      } else {
        assert data[n..][x - (pos + n)] == data[x - pos];
      }
    }
    forall j: nat, x: nat | !(j == ino && pos <= x < pos + n + w)
      ensures ByteKept(fs, fs2, j, x)
    {
      assert ByteKept(fs, fs1, j, x) && ByteKept(fs1, fs2, j, x);
    }
    var end := pos + n + w;
    forall j: nat, m: nat
      ensures ZoneKept(fs, fs2, ino, pos, end, j, m)
    {
      assert ZoneKept(fs, fs1, ino, pos, pos + n, j, m) && ZoneKept(fs1, fs2, ino, pos + n, pos + n + w, j, m);
    }
  }

  lemma ZoneRound(fs: Fs, ino: nat, pos: nat, bytes: seq<byte>, fs1: Fs, z: nat, fs2: Fs)
    requires Good(fs) && ino in fs.inodes && (fs1, Zone(z)) == Lookup(fs, ino, pos / ZONE_SIZE)
    requires z in fs1.disk && IsZone(fs1.disk[z]) && pos % ZONE_SIZE + |bytes| <= ZONE_SIZE
    requires fs2 == WriteZone(fs1, z, pos % ZONE_SIZE, bytes)
    ensures Good(fs2) && Wrote(fs, ino, pos, bytes, |bytes|, fs2)
  {
    LookupKeeps(fs, ino, pos / ZONE_SIZE, fs1, Zone(z));
    WriteZoneBytes(fs1, ino, pos, bytes, z, fs2);
    forall j: nat, x: nat | !(j == ino && pos <= x < pos + |bytes|)
      ensures ByteKept(fs, fs2, j, x)
    {
      assert ByteKept(fs, fs1, j, x) && ByteKept(fs1, fs2, j, x);
    }
    var end := pos + |bytes|;
    forall j: nat, m: nat
      ensures ZoneKept(fs, fs2, ino, pos, end, j, m)
    {
      assert Mapped(fs2, j, m) == Mapped(fs1, j, m) && OnlyAdds(fs, fs1, ino, pos / ZONE_SIZE, j, m);
    }
  }

  lemma RoundEffect(fs: Fs, ino: nat, pos: nat, data: seq<byte>, fs': Fs, n: nat, ending: Ending)
    requires Good(fs) && ino in fs.inodes && (fs', n, ending) == WriteRound(fs, ino, pos, data)
    ensures Good(fs') && n <= |data| && ino in fs'.inodes && Wrote(fs, ino, pos, data[..n], n, fs')
  {
    var (fs1, found) := Lookup(fs, ino, pos / ZONE_SIZE);
    if ending.Complete? {
      ZoneRound(fs, ino, pos, data[..n], fs1, found.z, fs');
    } else {
      LookupKeeps(fs, ino, pos / ZONE_SIZE, fs1, found);
      forall j: nat, m: nat
        ensures ZoneKept(fs, fs', ino, pos, pos, j, m)
      {
        assert OnlyAdds(fs, fs1, ino, pos / ZONE_SIZE, j, m);
      }
    }
  }

  /** minix_write's loop writes a prefix of the data, the whole of it unless zones run out, and changes no other
      byte of any file. */
  lemma {:induction false} WriteEffect(fs: Fs, ino: nat, pos: nat, data: seq<byte>, fs': Fs, w: nat, ending: Ending)
    requires Good(fs) && ino in fs.inodes && (fs', w, ending) == WriteFrom(fs, ino, pos, data) && !ending.Lost?
    ensures Good(fs') && Wrote(fs, ino, pos, data, w, fs') && (ending.Complete? ==> w == |data|)
    decreases |data|, 1
  {
    var (fs1, n, ending1) := WriteRound(fs, ino, pos, data);
    if ending1.Complete? && n < |data| {
      var (fs2, w2, ending2) := WriteFrom(fs1, ino, pos + n, data[n..]);
      WriteMore(fs, ino, pos, data, fs1, n, ending1, fs', w2, ending, w);
    } else {
      WriteLast(fs, ino, pos, data, fs', w, ending);
    }
  }

  lemma {:induction false} WriteMore(fs: Fs, ino: nat, pos: nat, data: seq<byte>, fs1: Fs, n: nat, ending1: Ending,
      fs': Fs, w: nat, ending: Ending, total: nat)
    requires Good(fs) && ino in fs.inodes && (fs1, n, ending1) == WriteRound(fs, ino, pos, data) && 0 < n < |data|
    requires (fs', w, ending) == WriteFrom(fs1, ino, pos + n, data[n..]) && total == n + w && !ending.Lost?
    ensures Good(fs') && Wrote(fs, ino, pos, data, total, fs') && (ending.Complete? ==> total == |data|)
    decreases |data|, 0
  {
    hide WriteRound, WriteFrom, Good;
    RoundEffect(fs, ino, pos, data, fs1, n, ending1);
    WriteEffect(fs1, ino, pos + n, data[n..], fs', w, ending);
    WroteTrans(fs, fs1, fs', ino, pos, data, n, w, total);
  }

  lemma WriteLast(fs: Fs, ino: nat, pos: nat, data: seq<byte>, fs': Fs, w: nat, ending: Ending)
    requires Good(fs) && ino in fs.inodes && (fs', w, ending) == WriteRound(fs, ino, pos, data)
    ensures Good(fs') && Wrote(fs, ino, pos, data, w, fs')
  {
    RoundEffect(fs, ino, pos, data, fs', w, ending);
    WrotePrefix(fs, ino, pos, data, w, fs');
  }

  lemma WrotePrefix(fs: Fs, ino: nat, pos: nat, data: seq<byte>, n: nat, fs': Fs)
    requires n <= |data| && Wrote(fs, ino, pos, data[..n], n, fs')
    ensures Wrote(fs, ino, pos, data, n, fs')
  {
    forall x | pos <= x < pos + n
      ensures Mapped(fs', ino, x / ZONE_SIZE) && ByteAt(fs', ino, x) == data[x - pos]
    {
      assert data[..n][x - pos] == data[x - pos];
    }
  }

  // ----- how a write ends -----

  /** Zone number `pos / ZONE_SIZE` is there, or can be had with all the tables that lead to it. */
  predicate FirstZone(fs: Fs, ino: nat, pos: nat) {
    pos / ZONE_SIZE < MAX_ZONES && Flags.Free(fs.bits) >= Missing(fs, PlaceOf(ino, pos / ZONE_SIZE).value)
  }

  /** A round leaves a zone where it begins exactly if there was one, or free zones enough for one. */
  lemma RoundMapsFirst(fs: Fs, ino: nat, pos: nat, data: seq<byte>, fs1: Fs, n: nat, ending: Ending)
    requires Good(fs) && ino in fs.inodes && (fs1, n, ending) == WriteRound(fs, ino, pos, data)
    ensures Mapped(fs1, ino, pos / ZONE_SIZE) <==> FirstZone(fs, ino, pos)
    ensures ending.Complete? <==> FirstZone(fs, ino, pos)
  {
    var (fs0, found) := Lookup(fs, ino, pos / ZONE_SIZE);
    LookupKeeps(fs, ino, pos / ZONE_SIZE, fs0, found);
    if pos / ZONE_SIZE < MAX_ZONES {
      DescendEffect(fs, PlaceOf(ino, pos / ZONE_SIZE).value, fs0, found);
    }
    if found.Zone? {
      assert ZoneOk(fs0, PlaceOf(ino, pos / ZONE_SIZE).value);
      WriteZoneBytes(fs0, ino, pos, data[..n], found.z, fs1);
      assert Mapped(fs1, ino, pos / ZONE_SIZE) == Mapped(fs0, ino, pos / ZONE_SIZE);
    }
  }

  lemma RoundGood(fs: Fs, ino: nat, pos: nat, data: seq<byte>, fs1: Fs, n: nat, ending: Ending)
    requires Good(fs) && ino in fs.inodes && (fs1, n, ending) == WriteRound(fs, ino, pos, data)
    ensures Good(fs1) && ino in fs1.inodes && n <= |data|
  {
    RoundEffect(fs, ino, pos, data, fs1, n, ending);
  }

  // ----- read, write and seek -----

  /** minix_read's loop, for `n` bytes. */
  function ReadFrom(fs: Fs, ino: nat, pos: nat, n: nat): seq<byte>
    decreases n
  {
    if !Mapped(fs, ino, pos / ZONE_SIZE) then []
    else
      var block := Contents(fs, PlaceOf(ino, pos / ZONE_SIZE).value);
      var zpos, zlen := pos % ZONE_SIZE, Min(ZONE_SIZE - pos % ZONE_SIZE, n);
      if !IsZone(block) then []
      else if zlen == n then block[zpos..zpos + zlen]
      else block[zpos..zpos + zlen] + ReadFrom(fs, ino, pos + zlen, n - zlen)
  }

  /** Bytes [pos, pos + n) of a file. */
  function Bytes(fs: Fs, ino: nat, pos: nat, n: nat): (r: seq<byte>)
    ensures |r| == n
  {
    seq<byte>(n, i requires 0 <= i < n => ByteAt(fs, ino, pos + i))
  }

  lemma BytesSplit(fs: Fs, ino: nat, pos: nat, m: nat, n: nat)
    ensures Bytes(fs, ino, pos, m + n) == Bytes(fs, ino, pos, m) + Bytes(fs, ino, pos + m, n)
  {
  }

  lemma ReadRound(fs: Fs, ino: nat, pos: nat, n: nat)
    requires Good(fs) && Mapped(fs, ino, pos / ZONE_SIZE) && pos % ZONE_SIZE + n <= ZONE_SIZE
    ensures var block := Contents(fs, PlaceOf(ino, pos / ZONE_SIZE).value);
            IsZone(block) && block[pos % ZONE_SIZE..pos % ZONE_SIZE + n] == Bytes(fs, ino, pos, n)
  {
    var p := PlaceOf(ino, pos / ZONE_SIZE).value;
    assert ZoneOk(fs, p);
    var zpos, bytes := pos % ZONE_SIZE, Bytes(fs, ino, pos, n);
    forall i | 0 <= i < n
      ensures Contents(fs, p)[zpos..zpos + n][i] == bytes[i]
    {
      var x := pos + i;
      assert x / ZONE_SIZE == pos / ZONE_SIZE && x % ZONE_SIZE == zpos + i;
      assert bytes[i] == ByteAt(fs, ino, x);
    }
  }

  /** The number of zones `size` bytes take. */
  function ZoneCount(size: nat): nat {
    (size + ZONE_SIZE - 1) / ZONE_SIZE
  }

  /** The first zone number from `n` on that has no zone. */
  function HoleFrom(fs: Fs, ino: nat, n: nat): (k: nat)
    ensures k >= n && !Mapped(fs, ino, k) && forall m :: n <= m < k ==> Mapped(fs, ino, m)
    ensures n <= MAX_ZONES ==> k <= MAX_ZONES
    decreases MAX_ZONES - n, fs
  {
    if Mapped(fs, ino, n) then HoleFrom(fs, ino, n + 1) else n
  }

  ghost predicate HoleFree(fs: Fs, ino: nat) {
    forall m: nat, n: nat :: m < n && Mapped(fs, ino, n) ==> Mapped(fs, ino, m)
  }

  lemma HoleFreeNumbers(fs: Fs, ino: nat)
    ensures HoleFree(fs, ino) <==> forall n :: 0 <= n && Mapped(fs, ino, n) ==> n < HoleFrom(fs, ino, 0)
  {
  }

  /** A file has zones for all its bytes, and no zone comes after a hole. */
  ghost predicate FileOk(fs: Fs, ino: nat) {
    ino in fs.inodes ==>
      && (forall n :: 0 <= n < ZoneCount(fs.inodes[ino].size) ==> Mapped(fs, ino, n))
      && HoleFree(fs, ino)
  }

  ghost predicate FilesOk(fs: Fs) {
    Good(fs) && forall ino :: FileOk(fs, ino)
  }

  function Content(fs: Fs, ino: nat): seq<byte>
    requires ino in fs.inodes
  {
    Bytes(fs, ino, 0, fs.inodes[ino].size)
  }

  function Max(a: nat, b: nat): nat {
    if a < b then b else a
  }

  /** A file up to `pos`, or all of it: past its end there is what its zones hold. */
  function Held(fs: Fs, ino: nat, pos: nat): (r: seq<byte>)
    requires ino in fs.inodes
    ensures pos <= |r|
  {
    Bytes(fs, ino, 0, Max(fs.inodes[ino].size, pos))
  }

  /** Bytes [a, b) of a file are zero. */
  ghost predicate Blank(fs: Fs, ino: nat, a: nat, b: nat) {
    forall x :: a <= x < b ==> ByteAt(fs, ino, x) == 0
  }

  /** No zone holds anything past the end of its file. */
  ghost predicate ZeroTails(fs: Fs) {
    forall ino: nat, x: nat :: ino in fs.inodes && fs.inodes[ino].size <= x ==> ByteAt(fs, ino, x) == 0
  }

  /** Past the end there are zeros if and only if the zones are blank there; up to the end it is all the same. */
  lemma HeldPaddedIff(fs: Fs, ino: nat, pos: nat)
    requires ino in fs.inodes
    ensures Held(fs, ino, pos) == Padded(Content(fs, ino), pos) <==> Blank(fs, ino, fs.inodes[ino].size, pos)
    ensures pos <= fs.inodes[ino].size ==> Held(fs, ino, pos) == Content(fs, ino) == Padded(Content(fs, ino), pos)
  {
    var size, h, c := fs.inodes[ino].size, Held(fs, ino, pos), Padded(Content(fs, ino), pos);
    forall x | 0 <= x < |h|
      ensures h[x] == ByteAt(fs, ino, x) && (x < size ==> c[x] == ByteAt(fs, ino, x))
    {
      assert h[x] == ByteAt(fs, ino, 0 + x);
      if x < size {
        assert Content(fs, ino)[x] == ByteAt(fs, ino, 0 + x);
      }
    }
    if h == c {
      forall x | size <= x < pos
        ensures ByteAt(fs, ino, x) == 0
      {
        assert h[x] == c[x];
      }
    }
  }

  /** `c`, with zeros up to `pos` if it ends before that. */
  function Padded(c: seq<byte>, pos: nat): (r: seq<byte>)
    ensures |r| == if pos < |c| then |c| else pos
    ensures forall x :: 0 <= x < |r| ==> r[x] == if x < |c| then c[x] else 0
  {
    if pos <= |c| then c else c + Zeros(pos - |c|)
  }

  /** `c` with `d` written at `pos`, extended if need be. */
  function Spliced(c: seq<byte>, pos: nat, d: seq<byte>): (r: seq<byte>)
    requires pos <= |c|
    ensures |r| == if pos + |d| < |c| then |c| else pos + |d|
    ensures forall x :: 0 <= x < |r| ==> r[x] == if pos <= x < pos + |d| then d[x - pos] else c[x]
  {
    c[..pos] + d + (if pos + |d| < |c| then c[pos + |d|..] else [])
  }

  function Resized(fs: Fs, ino: nat, size: nat): Fs
    requires ino in fs.inodes
  {
    fs.(inodes := fs.inodes[ino := fs.inodes[ino].(size := size)])
  }

  /** minix_write: the bytes accepted, and how it ended. The file then reaches the position, even if nothing was
      accepted. */
  function Write(fs: Fs, ino: nat, pos: nat, data: seq<byte>): (Fs, nat, Ending)
    requires ino in fs.inodes
  {
    var (fs1, w, ending) := WriteFrom(fs, ino, pos, data);
    (if ino in fs1.inodes && pos + w > fs1.inodes[ino].size then Resized(fs1, ino, pos + w) else fs1, w, ending)
  }

  /** minix_read: how much is left is a 32-bit unsigned difference. */
  function Read(fs: Fs, ino: nat, pos: nat, n: nat): seq<byte>
    requires ino in fs.inodes
  {
    var left := (fs.inodes[ino].size - pos) % WORD32;
    ReadFrom(fs, ino, pos, if n > left then left else n)
  }

  /** A size of its own changes neither zones nor bytes. */
  lemma ResizedSame(fs: Fs, ino: nat, size: nat, fs': Fs)
    requires ino in fs.inodes && fs' == Resized(fs, ino, size)
    ensures forall q :: ZoneOf(fs', q) == ZoneOf(fs, q)
    ensures forall j: nat, n: nat :: Mapped(fs', j, n) == Mapped(fs, j, n)
    ensures forall j: nat, x: nat :: ByteAt(fs', j, x) == ByteAt(fs, j, x)
    ensures Good(fs) ==> Good(fs')
  {
    forall q
      ensures ZoneOf(fs', q) == ZoneOf(fs, q) && Contents(fs', q) == Contents(fs, q)
    {
    }
    if Good(fs) {
      forall q
        ensures ZoneOk(fs', q)
      {
        assert ZoneOk(fs, q);
      }
      forall q, r
        ensures Sole(fs', q, r)
      {
        assert Sole(fs, q, r);
      }
      forall k
        ensures FreeOk(fs', k)
      {
        assert FreeOk(fs, k);
      }
    }
  }

  // ----- writing a file -----

  /** What minix_write does when it accepts `w` bytes of `data` at `pos`. */
  ghost predicate WroteFile(fs: Fs, ino: nat, pos: nat, data: seq<byte>, w: nat, fs': Fs) {
    && w <= |data| && Good(fs') && fs'.inodes.Keys == fs.inodes.Keys
    && (forall j :: j in fs.inodes ==>
          fs'.inodes[j].size == if j == ino then Max(fs.inodes[j].size, pos + w) else fs.inodes[j].size)
    && (forall x :: pos <= x < pos + w ==> Mapped(fs', ino, x / ZONE_SIZE) && ByteAt(fs', ino, x) == data[x - pos])
    && (forall j: nat, x: nat :: !(j == ino && pos <= x < pos + w) ==> ByteKept(fs, fs', j, x))
    && ZonesKept(fs, fs', ino, pos, pos + w)
  }

  /** So does a write. */
  lemma WriteMapsFirst(fs: Fs, ino: nat, pos: nat, data: seq<byte>, fs': Fs, w: nat, ending: Ending)
    requires Good(fs) && ino in fs.inodes && (fs', w, ending) == WriteFrom(fs, ino, pos, data) && !ending.Lost?
    ensures Mapped(fs', ino, pos / ZONE_SIZE) <==> FirstZone(fs, ino, pos)
  {
    hide WriteRound, Good, Mapped, FirstZone;
    var (fs1, n, ending1) := WriteRound(fs, ino, pos, data);
    RoundMapsFirst(fs, ino, pos, data, fs1, n, ending1);
    if ending1.Complete? && n < |data| {
      RoundGood(fs, ino, pos, data, fs1, n, ending1);
      Unrolled(fs, ino, pos, data, fs1, n, ending1, fs', w, ending);
      StaysMapped(fs1, ino, pos + n, data[n..], fs', w - n, ending, pos / ZONE_SIZE);
    }
  }

  lemma StaysMapped(fs: Fs, ino: nat, pos: nat, data: seq<byte>, fs': Fs, w: nat, ending: Ending, n: nat)
    requires Good(fs) && ino in fs.inodes && Writes(fs, ino, pos, data, fs', w, ending) && !ending.Lost?
    ensures Mapped(fs, ino, n) ==> Mapped(fs', ino, n)
  {
    WriteEffect(fs, ino, pos, data, fs', w, ending);
    assert ZoneKept(fs, fs', ino, pos, pos + w, ino, n);
  }

  /** minix_write writes exactly the bytes it accepts. */
  lemma WriteWrote(fs: Fs, ino: nat, pos: nat, data: seq<byte>, fs': Fs, w: nat, ending: Ending)
    requires Good(fs) && ino in fs.inodes && (fs', w, ending) == Write(fs, ino, pos, data) && !ending.Lost?
    ensures WroteFile(fs, ino, pos, data, w, fs') && (ending.Complete? ==> w == |data|)
    ensures Mapped(fs', ino, pos / ZONE_SIZE) <==> FirstZone(fs, ino, pos)
  {
    hide WriteFrom, Good, FirstZone;
    var fs1 := WriteFrom(fs, ino, pos, data).0;
    WriteEffect(fs, ino, pos, data, fs1, w, ending);
    WriteMapsFirst(fs, ino, pos, data, fs1, w, ending);
    if pos + w > fs.inodes[ino].size {
      ResizedSame(fs1, ino, pos + w, fs');
      ResizedWrote(fs, ino, pos, data, w, fs1, fs');
    }
  }

  lemma ResizedWrote(fs: Fs, ino: nat, pos: nat, data: seq<byte>, w: nat, fs1: Fs, fs': Fs)
    requires Wrote(fs, ino, pos, data, w, fs1) && Good(fs') && ino in fs1.inodes && pos + w > fs.inodes[ino].size
    requires fs' == Resized(fs1, ino, pos + w)
    requires forall j: nat, n: nat :: Mapped(fs', j, n) == Mapped(fs1, j, n)
    requires forall j: nat, x: nat :: ByteAt(fs', j, x) == ByteAt(fs1, j, x)
    ensures WroteFile(fs, ino, pos, data, w, fs')
  {
    forall j: nat, x: nat | !(j == ino && pos <= x < pos + w)
      ensures ByteKept(fs, fs', j, x)
    {
      assert ByteKept(fs, fs1, j, x);
    }
    var end := pos + w;
    forall j: nat, n: nat
      ensures ZoneKept(fs, fs', ino, pos, end, j, n)
    {
      assert ZoneKept(fs, fs1, ino, pos, end, j, n);
    }
  }

  /** The bytes of a file after a write to it or to another. */
  lemma WroteContent(fs: Fs, ino: nat, pos: nat, data: seq<byte>, w: nat, fs': Fs, j: nat)
    requires ino in fs.inodes && WroteFile(fs, ino, pos, data, w, fs') && j in fs.inodes
    ensures Content(fs', j) == if j == ino then Spliced(Held(fs, ino, pos), pos, data[..w]) else Content(fs, j)
  {
    forall x: nat | !(j == ino && pos <= x < pos + w)
      ensures ByteAt(fs', j, x) == ByteAt(fs, j, x)
    {
      assert ByteKept(fs, fs', j, x);
    }
    if j == ino {
      var r := Spliced(Held(fs, ino, pos), pos, data[..w]);
      forall x | 0 <= x < |r|
        ensures ByteAt(fs', ino, x) == r[x]
      {
        if pos <= x < pos + w {
          assert data[..w][x - pos] == data[x - pos];
        } else {
          assert Held(fs, ino, pos)[x] == ByteAt(fs, ino, 0 + x);
        }
      }
      assert Content(fs', ino) == r;
    }
  }

  /** Zones that are blank past the end of their files stay so. */
  lemma WroteTails(fs: Fs, ino: nat, pos: nat, data: seq<byte>, w: nat, fs': Fs)
    requires ino in fs.inodes && WroteFile(fs, ino, pos, data, w, fs') && ZeroTails(fs)
    ensures ZeroTails(fs')
  {
    forall j: nat, x: nat | j in fs'.inodes && fs'.inodes[j].size <= x
      ensures ByteAt(fs', j, x) == 0
    {
      assert ByteKept(fs, fs', j, x);
    }
  }

  /**
   Where a write may begin so that no hole comes about: in a zone the file has,
   or right behind its zones, and then, unless it begins with the zone, only if
   that zone can be had.
   */
  predicate Reaches(fs: Fs, ino: nat, pos: nat) {
    var hole := HoleFrom(fs, ino, 0);
    pos / ZONE_SIZE < hole || (pos / ZONE_SIZE == hole && (pos % ZONE_SIZE == 0 || FirstZone(fs, ino, pos)))
  }

  /** A position in the file, or at its end, is such a place. */
  lemma InsideReaches(fs: Fs, ino: nat, pos: nat)
    requires FilesOk(fs) && ino in fs.inodes && pos <= fs.inodes[ino].size
    ensures Reaches(fs, ino, pos)
  {
    assert FileOk(fs, ino);
    var hole := HoleFrom(fs, ino, 0);
    assert ZoneCount(fs.inodes[ino].size) <= hole;
  }

  /** A zone that the bytes [pos, pos + w) begin before and reach. */
  lemma ReachedMapped(fs: Fs, ino: nat, pos: nat, data: seq<byte>, w: nat, fs': Fs, n: nat)
    requires WroteFile(fs, ino, pos, data, w, fs') && pos / ZONE_SIZE < n && n * ZONE_SIZE < pos + w
    ensures Mapped(fs', ino, n)
  {
    assert (n * ZONE_SIZE) / ZONE_SIZE == n && pos <= n * ZONE_SIZE;
  }

  lemma ReachesZone(fs: Fs, ino: nat, pos: nat, data: seq<byte>, w: nat, fs': Fs, n: nat)
    requires FilesOk(fs) && ino in fs.inodes && WroteFile(fs, ino, pos, data, w, fs') && Reaches(fs, ino, pos)
    requires Mapped(fs', ino, pos / ZONE_SIZE) <==> FirstZone(fs, ino, pos)
    requires n < ZoneCount(Max(fs.inodes[ino].size, pos + w))
    ensures Mapped(fs', ino, n)
  {
    assert FileOk(fs, ino) && ZoneKept(fs, fs', ino, pos, pos + w, ino, n);
    if n > pos / ZONE_SIZE && !Mapped(fs, ino, n) {
      ReachedMapped(fs, ino, pos, data, w, fs', n);
    } else if n == pos / ZONE_SIZE && !Mapped(fs, ino, n) && w > 0 {
      assert Mapped(fs', ino, pos / ZONE_SIZE);
    }
  }

  lemma ReachesHoleFree(fs: Fs, ino: nat, pos: nat, data: seq<byte>, w: nat, fs': Fs)
    requires FilesOk(fs) && ino in fs.inodes && WroteFile(fs, ino, pos, data, w, fs') && Reaches(fs, ino, pos)
    requires Mapped(fs', ino, pos / ZONE_SIZE) <==> FirstZone(fs, ino, pos)
    ensures HoleFree(fs', ino)
  {
    assert FileOk(fs, ino);
    forall m: nat, n: nat | m < n && Mapped(fs', ino, n)
      ensures Mapped(fs', ino, m)
    {
      assert ZoneKept(fs, fs', ino, pos, pos + w, ino, n) && ZoneKept(fs, fs', ino, pos, pos + w, ino, m);
      if !Mapped(fs, ino, m) && m > pos / ZONE_SIZE {
        ReachedMapped(fs, ino, pos, data, w, fs', m);
      } else if !Mapped(fs, ino, m) && m == pos / ZONE_SIZE {
        assert n * ZONE_SIZE <= pos + w && w > 0;
        assert Mapped(fs', ino, pos / ZONE_SIZE);
      }
    }
  }

  /** The file written is in order exactly if the write reached it. */
  lemma WroteOkIff(fs: Fs, ino: nat, pos: nat, data: seq<byte>, w: nat, fs': Fs)
    requires FilesOk(fs) && ino in fs.inodes && WroteFile(fs, ino, pos, data, w, fs')
    requires Mapped(fs', ino, pos / ZONE_SIZE) <==> FirstZone(fs, ino, pos)
    ensures FileOk(fs', ino) <==> Reaches(fs, ino, pos)
  {
    var size, hole := fs'.inodes[ino].size, HoleFrom(fs, ino, 0);
    assert FileOk(fs, ino);
    if Reaches(fs, ino, pos) {
      forall n | 0 <= n < ZoneCount(size)
        ensures Mapped(fs', ino, n)
      {
        ReachesZone(fs, ino, pos, data, w, fs', n);
      }
      ReachesHoleFree(fs, ino, pos, data, w, fs');
    } else {
      assert ZoneKept(fs, fs', ino, pos, pos + w, ino, hole);
      assert ZoneCount(size) > hole;
    }
  }

  lemma WroteOther(fs: Fs, ino: nat, pos: nat, data: seq<byte>, w: nat, fs': Fs, j: nat)
    requires FilesOk(fs) && ino in fs.inodes && WroteFile(fs, ino, pos, data, w, fs') && j != ino
    ensures FileOk(fs', j)
  {
    assert FileOk(fs, j);
    forall n: nat
      ensures Mapped(fs', j, n) == Mapped(fs, j, n)
    {
      assert ZoneKept(fs, fs', ino, pos, pos + w, j, n);
    }
  }

  /**
   minix_write replaces, or adds after what the zones hold, exactly the bytes
   it accepts, and touches no other file. It leaves the files in order if and
   only if it reaches the zones there are.
   */
  lemma WriteRefines(fs: Fs, ino: nat, pos: nat, data: seq<byte>, fs': Fs, w: nat, ending: Ending)
    requires FilesOk(fs) && ino in fs.inodes && (fs', w, ending) == Write(fs, ino, pos, data) && !ending.Lost?
    ensures fs'.inodes.Keys == fs.inodes.Keys && w <= |data| && (ending.Complete? ==> w == |data|)
    ensures forall j :: j in fs.inodes ==>
              Content(fs', j) == if j == ino then Spliced(Held(fs, ino, pos), pos, data[..w]) else Content(fs, j)
    ensures FilesOk(fs') <==> Reaches(fs, ino, pos)
    ensures ZeroTails(fs) ==> ZeroTails(fs')
  {
    WriteWrote(fs, ino, pos, data, fs', w, ending);
    forall j | j in fs.inodes
      ensures Content(fs', j) == if j == ino then Spliced(Held(fs, ino, pos), pos, data[..w]) else Content(fs, j)
    {
      WroteContent(fs, ino, pos, data, w, fs', j);
    }
    if ZeroTails(fs) {
      WroteTails(fs, ino, pos, data, w, fs');
    }
    WroteOkIff(fs, ino, pos, data, w, fs');
    forall j | j != ino
      ensures FileOk(fs', j)
    {
      WroteOther(fs, ino, pos, data, w, fs', j);
    }
  }

  /** A file is no longer than its zones allow. */
  lemma SizeBound(fs: Fs, ino: nat)
    requires FilesOk(fs) && ino in fs.inodes
    ensures fs.inodes[ino].size <= MAX_ZONES * ZONE_SIZE < WORD32 / 2
  {
    assert FileOk(fs, ino);
    var n := ZoneCount(fs.inodes[ino].size);
    if n > 0 {
      assert Mapped(fs, ino, n - 1);
    }
  }

  // ----- reading a file -----

  /** How many of `n` bytes from `pos` on are in zones before number `hole`. */
  function BeforeHole(pos: nat, n: nat, hole: nat): (m: nat)
    ensures m <= n
  {
    if pos >= hole * ZONE_SIZE then 0 else Min(n, hole * ZONE_SIZE - pos)
  }

  lemma BeforeHoleSplit(pos: nat, n: nat, hole: nat, zlen: nat)
    requires pos / ZONE_SIZE < hole && zlen == Min(ZONE_SIZE - pos % ZONE_SIZE, n)
    ensures BeforeHole(pos, n, hole) == zlen + BeforeHole(pos + zlen, n - zlen, hole)
    ensures zlen < n ==> (pos + zlen) / ZONE_SIZE <= hole
  {
    assert pos + (ZONE_SIZE - pos % ZONE_SIZE) <= hole * ZONE_SIZE;
  }

  /** A read of `n` bytes from `pos` on gives the next `m` of the file. */
  ghost predicate ReadsTo(fs: Fs, ino: nat, pos: nat, n: nat, m: nat) {
    ReadFrom(fs, ino, pos, n) == Bytes(fs, ino, pos, m)
  }

  /** One round of minix_read's loop, and the rounds after it. */
  lemma ReadJoin(fs: Fs, ino: nat, pos: nat, n: nat, zlen: nat, m: nat)
    requires Good(fs) && Mapped(fs, ino, pos / ZONE_SIZE) && zlen == Min(ZONE_SIZE - pos % ZONE_SIZE, n)
    requires if zlen < n then ReadsTo(fs, ino, pos + zlen, n - zlen, m) else m == 0
    ensures ReadsTo(fs, ino, pos, n, zlen + m)
  {
    ReadRound(fs, ino, pos, zlen);
    BytesSplit(fs, ino, pos, zlen, m);
  }

  lemma ReadNone(fs: Fs, ino: nat, pos: nat, n: nat)
    requires !Mapped(fs, ino, pos / ZONE_SIZE)
    ensures ReadsTo(fs, ino, pos, n, 0)
  {
  }

  /** minix_read's loop returns the bytes of the zones up to the first hole. */
  lemma {:induction false} ReadStops(fs: Fs, ino: nat, pos: nat, n: nat, hole: nat)
    requires Good(fs) && !Mapped(fs, ino, hole) && (forall k :: 0 <= k < hole ==> Mapped(fs, ino, k))
    requires pos / ZONE_SIZE > hole ==> !Mapped(fs, ino, pos / ZONE_SIZE)
    ensures ReadsTo(fs, ino, pos, n, BeforeHole(pos, n, hole))
    decreases n
  {
    hide Mapped, ReadsTo, Good;
    if pos / ZONE_SIZE < hole {
      var zlen := Min(ZONE_SIZE - pos % ZONE_SIZE, n);
      BeforeHoleSplit(pos, n, hole, zlen);
      if zlen < n {
        ReadStops(fs, ino, pos + zlen, n - zlen, hole);
      }
      ReadJoin(fs, ino, pos, n, zlen, BeforeHole(pos + zlen, n - zlen, hole));
    } else {
      ReadNone(fs, ino, pos, n);
    }
  }

  lemma SliceOfBytes(fs: Fs, ino: nat, pos: nat, n: nat, size: nat)
    requires pos + n <= size
    ensures Bytes(fs, ino, 0, size)[pos..pos + n] == Bytes(fs, ino, pos, n)
  {
  }

  /** All bytes of a file are before its first hole. */
  lemma NoHoleInside(fs: Fs, ino: nat, pos: nat, n: nat)
    requires FilesOk(fs) && ino in fs.inodes && pos + n <= fs.inodes[ino].size
    ensures BeforeHole(pos, n, HoleFrom(fs, ino, 0)) == n
  {
    assert FileOk(fs, ino);
    assert ZoneCount(fs.inodes[ino].size) <= HoleFrom(fs, ino, 0);
  }

  lemma AtOrPastHole(fs: Fs, ino: nat, pos: nat)
    requires FilesOk(fs) && ino in fs.inodes
    ensures pos / ZONE_SIZE > HoleFrom(fs, ino, 0) ==> !Mapped(fs, ino, pos / ZONE_SIZE)
  {
    assert FileOk(fs, ino);
  }

  /** minix_read returns the bytes there are, up to the number asked for. */
  lemma ReadRefines(fs: Fs, ino: nat, pos: nat, n: nat)
    requires FilesOk(fs) && ino in fs.inodes && pos <= fs.inodes[ino].size
    ensures var c := Content(fs, ino); Read(fs, ino, pos, n) == c[pos..if pos + n < |c| then pos + n else |c|]
  {
    SizeBound(fs, ino);
    assert Good(fs);
    hide Good, Mapped, BeforeHole, FileOk, FilesOk, ReadFrom;
    var size := fs.inodes[ino].size;
    var m := if n > size - pos then size - pos else n;
    assert (size - pos) % WORD32 == size - pos;
    AtOrPastHole(fs, ino, pos);
    NoHoleInside(fs, ino, pos, m);
    ReadStops(fs, ino, pos, m, HoleFrom(fs, ino, 0));
    SliceOfBytes(fs, ino, pos, m, size);
  }

  lemma BlankBytes(fs: Fs, ino: nat, pos: nat, m: nat)
    ensures Bytes(fs, ino, pos, m) == Zeros(m) <==> Blank(fs, ino, pos, pos + m)
  {
    var b := Bytes(fs, ino, pos, m);
    if b == Zeros(m) {
      forall x | pos <= x < pos + m
        ensures ByteAt(fs, ino, x) == 0
      {
        assert b[x - pos] == ByteAt(fs, ino, pos + (x - pos));
      }
    }
  }

  lemma LeftPastEnd(size: int, pos: int, n: int, hole: nat)
    requires 0 <= size < pos < WORD32 / 2 && 0 <= n && hole <= MAX_ZONES
    ensures var left := (size - pos) % WORD32;
            left >= 0 && BeforeHole(pos, if n > left then left else n, hole) == BeforeHole(pos, n, hole)
  {
    assert (size - pos) % WORD32 == size - pos + WORD32;
    assert hole * ZONE_SIZE <= MAX_ZONES * ZONE_SIZE;
  }

  /** From a position past the end, minix_read returns what the zones of the file have left there. */
  lemma ReadPastEnd(fs: Fs, ino: nat, pos: nat, n: nat)
    requires FilesOk(fs) && ino in fs.inodes && fs.inodes[ino].size < pos < WORD32 / 2
    ensures Read(fs, ino, pos, n) == Bytes(fs, ino, pos, BeforeHole(pos, n, HoleFrom(fs, ino, 0)))
  {
    assert Good(fs);
    hide Good, Mapped, BeforeHole, FileOk, FilesOk, ReadFrom;
    var hole, left := HoleFrom(fs, ino, 0), (fs.inodes[ino].size - pos) % WORD32;
    LeftPastEnd(fs.inodes[ino].size, pos, n, hole);
    AtOrPastHole(fs, ino, pos);
    ReadStops(fs, ino, pos, if n > left then left else n, hole);
  }

  /** What was accepted is read back. */
  lemma WriteThenRead(fs: Fs, ino: nat, pos: nat, data: seq<byte>, fs': Fs, w: nat, ending: Ending)
    requires FilesOk(fs) && ino in fs.inodes && (fs', w, ending) == Write(fs, ino, pos, data) && !ending.Lost?
    requires Reaches(fs, ino, pos)
    ensures w <= |data| && ino in fs'.inodes && Read(fs', ino, pos, w) == data[..w]
  {
    WriteRefines(fs, ino, pos, data, fs', w, ending);
    assert |Content(fs', ino)| >= pos + w;
    ReadRefines(fs', ino, pos, w);
  }

  /** Neither reading nor writing takes a position past the longest file there can be. */
  lemma PositionBound(fs: Fs, ino: nat, pos: nat, n: nat, data: seq<byte>)
    requires FilesOk(fs) && ino in fs.inodes && pos <= MAX_ZONES * ZONE_SIZE
    ensures pos + |Read(fs, ino, pos, n)| <= MAX_ZONES * ZONE_SIZE
    ensures !Write(fs, ino, pos, data).2.Lost? ==> pos + Write(fs, ino, pos, data).1 <= MAX_ZONES * ZONE_SIZE
  {
    ReadBound(fs, ino, pos, n);
    var (fs', w, ending) := Write(fs, ino, pos, data);
    if !ending.Lost? && w > 0 {
      WriteWrote(fs, ino, pos, data, fs', w, ending);
      LastMapped(fs, ino, pos, data, w, fs');
    }
  }

  lemma ReadBound(fs: Fs, ino: nat, pos: nat, n: nat)
    requires FilesOk(fs) && ino in fs.inodes && pos <= MAX_ZONES * ZONE_SIZE
    ensures pos + |Read(fs, ino, pos, n)| <= MAX_ZONES * ZONE_SIZE
  {
    hide Good, Mapped, Read;
    SizeBound(fs, ino);
    if pos <= fs.inodes[ino].size {
      ReadRefines(fs, ino, pos, n);
    } else {
      ReadPastEnd(fs, ino, pos, n);
      assert HoleFrom(fs, ino, 0) * ZONE_SIZE <= MAX_ZONES * ZONE_SIZE;
    }
  }

  lemma LastMapped(fs: Fs, ino: nat, pos: nat, data: seq<byte>, w: nat, fs': Fs)
    requires WroteFile(fs, ino, pos, data, w, fs') && w > 0
    ensures pos + w <= MAX_ZONES * ZONE_SIZE
  {
    var x := pos + w - 1;
    assert Mapped(fs', ino, x / ZONE_SIZE);
  }
}
