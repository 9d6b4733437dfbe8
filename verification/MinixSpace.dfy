/**
 How far a write to a file in zones gets: which zones it needs, how many bytes
 are accepted when there are not enough, and when the lookup is then lost.
 */
module MinixSpace {
  import opened Common
  import opened MinixFile
  import opened MinixZones
  import Flags

  /** The place and those that lead to it. */
  function Path(p: Place): set<Place> {
    {p, ParentOf(p), ParentOf(ParentOf(p))}
  }

  /** The places that zones [a, b) of a file need. */
  function Paths(ino: nat, a: nat, b: nat): (ps: set<Place>)
    ensures forall q :: q in ps ==> IsPlace(q)
    decreases b - a
  {
    if a >= b || a >= MAX_ZONES then {} else Path(PlaceOf(ino, a).value) + Paths(ino, a + 1, b)
  }

  /** Those of them that have no zone yet. */
  function Unfilled(fs: Fs, ps: set<Place>): set<Place> {
    set q | q in ps && ZoneOf(fs, q) == 0
  }

  /** The zones, of data and of tables, that are missing for zones [a, b) of a file. */
  function MissingZones(fs: Fs, ino: nat, a: nat, b: nat): set<Place> {
    Unfilled(fs, Paths(ino, a, b))
  }

  lemma {:induction false} MissingOnPath(fs: Fs, p: Place)
    requires IsPlace(p)
    ensures |Unfilled(fs, Path(p))| == Missing(fs, p)
    decreases if p.Deep? then 2 else if p.Entry? then 1 else 0
  {
    if p.Slot? {
      assert Unfilled(fs, Path(p)) == if ZoneOf(fs, p) == 0 then {p} else {};
    } else {
      var parent := ParentOf(p);
      TableIsParentZone(fs, p);
      MissingOnPath(fs, parent);
      if ZoneOf(fs, p) == 0 {
        assert Unfilled(fs, Path(p)) == {p} + Unfilled(fs, Path(parent));
      } else {
        if !parent.Slot? {
          TableIsParentZone(fs, parent);
        }
        assert Unfilled(fs, Path(p)) == {};
      }
    }
  }

  /** A lookup that finds its zone has filled the places on the way to it, and no others. */
  lemma FoundFills(fs: Fs, p: Place, fs': Fs, z: nat, q: Place)
    requires Good(fs) && IsPlace(p) && p.ino in fs.inodes && (fs', Zone(z)) == Descend(fs, p) && IsPlace(q)
    ensures ZoneOf(fs', q) == 0 <==> ZoneOf(fs, q) == 0 && q !in Path(p)
  {
    DescendEffect(fs, p, fs', Zone(z));
    assert Kept(fs, fs', p, q);
    if !p.Slot? {
      TableIsParentZone(fs', p);
      if p.Deep? {
        TableIsParentZone(fs', ParentOf(p));
      }
    }
  }

  lemma RoundFills(fs: Fs, ino: nat, pos: nat, data: seq<byte>, fs1: Fs, n: nat, ending: Ending, p: Place, q: Place)
    requires Good(fs) && ino in fs.inodes && (fs1, n, ending) == WriteRound(fs, ino, pos, data) && ending.Complete?
    requires PlaceOf(ino, pos / ZONE_SIZE) == Some(p) && IsPlace(q)
    ensures ZoneOf(fs1, q) == 0 <==> ZoneOf(fs, q) == 0 && q !in Path(p)
    ensures Flags.Free(fs1.bits) == Flags.Free(fs.bits) - Missing(fs, p)
  {
    var (fs0, found) := Lookup(fs, ino, pos / ZONE_SIZE);
    DescendEffect(fs, p, fs0, found);
    FoundFills(fs, p, fs0, found.z, q);
    assert ZoneOk(fs0, p);
    WriteZoneSame(fs0, p, pos % ZONE_SIZE, data[..n], fs1, q);
  }

  lemma MissingSplit(fs: Fs, fs1: Fs, ino: nat, a: nat, b: nat, p: Place)
    requires a < b && PlaceOf(ino, a) == Some(p)
    requires forall q :: IsPlace(q) ==> (ZoneOf(fs1, q) == 0 <==> ZoneOf(fs, q) == 0 && q !in Path(p))
    ensures |MissingZones(fs, ino, a, b)| == Missing(fs, p) + |MissingZones(fs1, ino, a + 1, b)|
  {
    MissingOnPath(fs, p);
    hide ZoneOf, Missing, PlaceOf;
    var all, here, rest := MissingZones(fs, ino, a, b), Unfilled(fs, Path(p)), MissingZones(fs1, ino, a + 1, b);
    assert all == here + rest && here !! rest;
  }

  /** A round uses the zones missing for its own, and leaves those missing for the rest. */
  lemma RoundUses(fs: Fs, ino: nat, pos: nat, data: seq<byte>, fs1: Fs, n: nat, ending: Ending, p: Place, b: nat)
    requires Good(fs) && ino in fs.inodes && (fs1, n, ending) == WriteRound(fs, ino, pos, data) && ending.Complete?
    requires pos / ZONE_SIZE < b && PlaceOf(ino, pos / ZONE_SIZE) == Some(p)
    ensures |MissingZones(fs, ino, pos / ZONE_SIZE, b)|
            == Missing(fs, p) + |MissingZones(fs1, ino, pos / ZONE_SIZE + 1, b)|
    ensures Flags.Free(fs1.bits) == Flags.Free(fs.bits) - Missing(fs, p)
  {
    hide WriteRound, Good, ZoneOf, Missing, MissingZones, Path;
    RoundFills(fs, ino, pos, data, fs1, n, ending, p, p);
    forall q | IsPlace(q)
      ensures ZoneOf(fs1, q) == 0 <==> ZoneOf(fs, q) == 0 && q !in Path(p)
    {
      RoundFills(fs, ino, pos, data, fs1, n, ending, p, q);
    }
    MissingSplit(fs, fs1, ino, pos / ZONE_SIZE, b, p);
  }

  /** The number of the last zone that a write at `pos` comes to. */
  function LastZone(pos: nat, data: seq<byte>): nat {
    if data == [] then pos / ZONE_SIZE else (pos + |data| - 1) / ZONE_SIZE
  }

  /**
   A write is accepted in full if and only if the file can be that long and as
   many zones are free as are missing for it; it then uses up just those.
   */
  lemma {:induction false} WriteCompleteIff(fs: Fs, ino: nat, pos: nat, data: seq<byte>, fs': Fs, w: nat,
      ending: Ending)
    requires Good(fs) && ino in fs.inodes && Writes(fs, ino, pos, data, fs', w, ending)
    ensures var last := LastZone(pos, data);
            var missing := |MissingZones(fs, ino, pos / ZONE_SIZE, last + 1)|;
            && (ending.Complete? <==> last < MAX_ZONES && Flags.Free(fs.bits) >= missing)
            && (ending.Complete? ==> Flags.Free(fs'.bits) == Flags.Free(fs.bits) - missing)
    decreases |data|
  {
    hide Writes, WriteRound, Good, MissingZones, Missing, LastZone, PlaceOf;
    var last := LastZone(pos, data);
    var (fs1, n, ending1) := WriteRound(fs, ino, pos, data);
    RoundMapsFirst(fs, ino, pos, data, fs1, n, ending1);
    Unrolled(fs, ino, pos, data, fs1, n, ending1, fs', w, ending);
    LastZoneAfter(pos, data);
    if !ending1.Complete? {
      if last < MAX_ZONES {
        PathMissing(fs, ino, pos / ZONE_SIZE, last + 1);
      }
    } else {
      RoundUses(fs, ino, pos, data, fs1, n, ending1, PlaceOf(ino, pos / ZONE_SIZE).value, last + 1);
      RoundGood(fs, ino, pos, data, fs1, n, ending1);
      RoundAdvances(fs, ino, pos, data, n);
      if n < |data| {
        WriteCompleteIff(fs1, ino, pos + n, data[n..], fs', w - n, ending);
      } else {
        NoneMissing(fs1, ino, last + 1);
      }
    }
  }

  lemma LastZoneAfter(pos: nat, data: seq<byte>)
    ensures pos / ZONE_SIZE <= LastZone(pos, data)
  {
  }

  lemma NoneMissing(fs: Fs, ino: nat, a: nat)
    ensures |MissingZones(fs, ino, a, a)| == 0
  {
    assert MissingZones(fs, ino, a, a) == {};
  }

  lemma PathMissing(fs: Fs, ino: nat, a: nat, b: nat)
    requires a < b && a < MAX_ZONES
    ensures |MissingZones(fs, ino, a, b)| >= Missing(fs, PlaceOf(ino, a).value)
  {
    MissingOnPath(fs, PlaceOf(ino, a).value);
    var here, all := Unfilled(fs, Path(PlaceOf(ino, a).value)), MissingZones(fs, ino, a, b);
    assert all == here + (all - here) && here !! (all - here);
  }

  /** Where a round that was complete leaves off. */
  lemma RoundAdvances(fs: Fs, ino: nat, pos: nat, data: seq<byte>, n: nat)
    requires n == WriteRound(fs, ino, pos, data).1 && WriteRound(fs, ino, pos, data).2.Complete?
    ensures if n < |data| then
              && n > 0 && (pos + n) / ZONE_SIZE == pos / ZONE_SIZE + 1 && (pos + n) % ZONE_SIZE == 0
              && LastZone(pos + n, data[n..]) == LastZone(pos, data)
            else LastZone(pos, data) == pos / ZONE_SIZE
  {
    assert n == Min(ZONE_SIZE - pos % ZONE_SIZE, |data|);
  }

  /** A table is missing in the round at `pos`, and what block 0 holds in its place leads to a block that can be
      read. */
  predicate RoundLost(fs: Fs, ino: nat, pos: nat) {
    && pos / ZONE_SIZE < MAX_ZONES
    && var p, free := PlaceOf(ino, pos / ZONE_SIZE).value, Flags.Free(fs.bits);
       free < Missing(fs, p) && StrayEntry(fs, p, free) != 0 && StrayEntry(fs, p, free) in fs.disk
  }

  /** With zones for all tables a round is not lost. */
  lemma TablesCovered(fs: Fs, ino: nat, pos: nat)
    requires pos / ZONE_SIZE < MAX_ZONES ==> Flags.Free(fs.bits) + 1 >= Missing(fs, PlaceOf(ino, pos / ZONE_SIZE).value)
    ensures !RoundLost(fs, ino, pos)
  {
  }

  /** How a round ends that comes to block `z` for want of zones: there is none, or it is read. */
  function FailureOf(fs: Fs, z: nat): Ending {
    if z == 0 then NoSpace else if z in fs.disk then Lost else IoError
  }

  lemma RoundLostIff(fs: Fs, ino: nat, pos: nat, data: seq<byte>, fs1: Fs, n: nat, ending: Ending)
    requires Good(fs) && ino in fs.inodes && (fs1, n, ending) == WriteRound(fs, ino, pos, data)
    ensures ending.Lost? <==> RoundLost(fs, ino, pos)
    ensures !ending.Complete? ==>
              ending == FailureOf(fs, if pos / ZONE_SIZE < MAX_ZONES then
                StrayEntry(fs, PlaceOf(ino, pos / ZONE_SIZE).value, Flags.Free(fs.bits)) else 0)
  {
    RoundMapsFirst(fs, ino, pos, data, fs1, n, ending);
    if pos / ZONE_SIZE < MAX_ZONES {
      var p := PlaceOf(ino, pos / ZONE_SIZE).value;
      var (fs0, found) := Lookup(fs, ino, pos / ZONE_SIZE);
      DescendEffect(fs, p, fs0, found);
    }
  }

  // ----- how far it gets -----

  /** There are free zones for all that zones [a, j] of a file still need. */
  predicate Room(fs: Fs, ino: nat, a: nat, j: nat) {
    j < MAX_ZONES && |MissingZones(fs, ino, a, j + 1)| <= Flags.Free(fs.bits)
  }

  /** The first zone from `k` on for which there is no room. */
  function ShortZone(fs: Fs, ino: nat, a: nat, k: nat): (s: nat)
    ensures s >= k && !Room(fs, ino, a, s) && forall j :: k <= j < s ==> Room(fs, ino, a, j)
    decreases MAX_ZONES - k
  {
    if Room(fs, ino, a, k) then ShortZone(fs, ino, a, k + 1) else k
  }

  /** The bytes of a write that come before that. */
  function Accepted(fs: Fs, ino: nat, pos: nat, data: seq<byte>): nat {
    BytesBefore(ShortZone(fs, ino, pos / ZONE_SIZE, pos / ZONE_SIZE), LastZone(pos, data), pos, |data|)
  }

  /** How many of `n` bytes from `pos` on, the last of them in zone `last`, come before zone `short`. */
  function BytesBefore(short: nat, last: nat, pos: nat, n: nat): nat {
    if last < short then n else if short * ZONE_SIZE > pos then short * ZONE_SIZE - pos else 0
  }

  lemma BytesBeforeSplit(short: nat, last: nat, pos: nat, n: nat, m: nat)
    requires m <= n && short > pos / ZONE_SIZE
    requires m < n ==> m == ZONE_SIZE - pos % ZONE_SIZE
    requires m == n ==> last == pos / ZONE_SIZE
    ensures BytesBefore(short, last, pos, n) == if m == n then n else m + BytesBefore(short, last, pos + m, n - m)
  {
    if m < n {
      assert pos + m == (pos / ZONE_SIZE + 1) * ZONE_SIZE;
    }
  }

  lemma RoomFirst(fs: Fs, ino: nat, pos: nat)
    ensures Room(fs, ino, pos / ZONE_SIZE, pos / ZONE_SIZE) <==> FirstZone(fs, ino, pos)
  {
    if pos / ZONE_SIZE < MAX_ZONES {
      MissingOne(fs, ino, pos / ZONE_SIZE);
    }
  }

  lemma MissingOne(fs: Fs, ino: nat, a: nat)
    requires a < MAX_ZONES
    ensures |MissingZones(fs, ino, a, a + 1)| == Missing(fs, PlaceOf(ino, a).value)
  {
    var p := PlaceOf(ino, a).value;
    MissingOnPath(fs, p);
    assert Paths(ino, a + 1, a + 1) == {};
    assert Paths(ino, a, a + 1) == Path(p);
  }

  /** What there is room for stays the same from round to round. */
  lemma RoundRoom(fs: Fs, ino: nat, pos: nat, data: seq<byte>, fs1: Fs, n: nat, ending: Ending, j: nat)
    requires Good(fs) && ino in fs.inodes && (fs1, n, ending) == WriteRound(fs, ino, pos, data) && ending.Complete?
    requires pos / ZONE_SIZE < j
    ensures Room(fs, ino, pos / ZONE_SIZE, j) <==> Room(fs1, ino, pos / ZONE_SIZE + 1, j)
    ensures |MissingZones(fs, ino, pos / ZONE_SIZE, j + 1)| - Flags.Free(fs.bits)
            == |MissingZones(fs1, ino, pos / ZONE_SIZE + 1, j + 1)| - Flags.Free(fs1.bits)
  {
    hide WriteRound, Good, MissingZones, Missing;
    RoundMapsFirst(fs, ino, pos, data, fs1, n, ending);
    RoundUses(fs, ino, pos, data, fs1, n, ending, PlaceOf(ino, pos / ZONE_SIZE).value, j + 1);
  }

  lemma RoundShort(fs: Fs, ino: nat, pos: nat, data: seq<byte>, fs1: Fs, n: nat, ending: Ending)
    requires Good(fs) && ino in fs.inodes && (fs1, n, ending) == WriteRound(fs, ino, pos, data) && ending.Complete?
    ensures var a := pos / ZONE_SIZE; ShortZone(fs, ino, a, a) == ShortZone(fs1, ino, a + 1, a + 1) > a
  {
    hide WriteRound, Good, Room, ShortZone, FirstZone;
    var a := pos / ZONE_SIZE;
    RoundMapsFirst(fs, ino, pos, data, fs1, n, ending);
    RoomFirst(fs, ino, pos);
    var s, s1 := ShortZone(fs, ino, a, a), ShortZone(fs1, ino, a + 1, a + 1);
    RoundRoom(fs, ino, pos, data, fs1, n, ending, s1);
    if s > a {
      RoundRoom(fs, ino, pos, data, fs1, n, ending, s);
    }
  }

  /** minix_write's loop accepts exactly the bytes before the first zone for which there is no room. */
  lemma {:induction false} WriteAccepts(fs: Fs, ino: nat, pos: nat, data: seq<byte>, fs': Fs, w: nat, ending: Ending)
    requires Good(fs) && ino in fs.inodes && Writes(fs, ino, pos, data, fs', w, ending)
    ensures w == Accepted(fs, ino, pos, data)
    decreases |data|
  {
    hide Writes, WriteRound, Good, Room, FirstZone, LastZone, ShortZone, BytesBefore;
    var (fs1, n, ending1) := WriteRound(fs, ino, pos, data);
    RoundMapsFirst(fs, ino, pos, data, fs1, n, ending1);
    RoomFirst(fs, ino, pos);
    Unrolled(fs, ino, pos, data, fs1, n, ending1, fs', w, ending);
    LastZoneAfter(pos, data);
    RoundTakes(fs, ino, pos, data, n);
    var short := ShortZone(fs, ino, pos / ZONE_SIZE, pos / ZONE_SIZE);
    if !ending1.Complete? {
      NoneBefore(short, LastZone(pos, data), pos, |data|);
    } else {
      RoundShort(fs, ino, pos, data, fs1, n, ending1);
      RoundAdvances(fs, ino, pos, data, n);
      RoundGood(fs, ino, pos, data, fs1, n, ending1);
      BytesBeforeSplit(short, LastZone(pos, data), pos, |data|, n);
      if n < |data| {
        WriteAccepts(fs1, ino, pos + n, data[n..], fs', w - n, ending);
      }
    }
  }

  lemma NoneBefore(short: nat, last: nat, pos: nat, n: nat)
    requires short == pos / ZONE_SIZE <= last
    ensures BytesBefore(short, last, pos, n) == 0
  {
  }

  lemma RoundTakes(fs: Fs, ino: nat, pos: nat, data: seq<byte>, n: nat)
    requires n == WriteRound(fs, ino, pos, data).1
    ensures n == if WriteRound(fs, ino, pos, data).2.Complete? then Min(ZONE_SIZE - pos % ZONE_SIZE, |data|) else 0
  {
  }

  // ----- when it is lost -----

  /**
   The write comes to a zone whose tables there are no free zones for, and
   block 0, taken for the missing table, leads to a block. If both tables are
   missing it does so by way of another block, as the write has left that.
   */
  predicate Strays(fs: Fs, fs': Fs, ino: nat, pos: nat, data: seq<byte>) {
    EndingOf(fs, fs', ino, pos, data).Lost?
  }

  /** How a write ends. It is complete if there is room for it; else it ends with ENOSPC at the end of the largest file,
      if only the zone itself is lacking, and if block 0 has nothing in place of the missing table. */
  function EndingOf(fs: Fs, fs': Fs, ino: nat, pos: nat, data: seq<byte>): Ending {
    var a := pos / ZONE_SIZE;
    var short := ShortZone(fs, ino, a, a);
    var lack := |MissingZones(fs, ino, a, short + 1)| - Flags.Free(fs.bits);
    if LastZone(pos, data) < short then Complete else EndingAt(fs, fs', ino, short, lack)
  }

  function EndingAt(fs: Fs, fs': Fs, ino: nat, short: nat, lack: int): Ending {
    FailureOf(fs, if short < MAX_ZONES && lack > 1 then StrayNumber(fs, fs', PlaceOf(ino, short).value, lack) else 0)
  }

  /** What is found in place of the number of zone `p` if `lack` zones are lacking on the way. */
  function StrayNumber(fs: Fs, fs': Fs, p: Place, lack: int): nat {
    if lack == 2 then RawEntry(fs.disk, 0, IndexOf(p))
    else RawEntry(fs'.disk, RawEntry(fs.disk, 0, IndexOf(ParentOf(p))), IndexOf(p))
  }

  /** Block 0 is no zone, and is not written. */
  lemma RoundBlock0(fs: Fs, ino: nat, pos: nat, data: seq<byte>, fs1: Fs, n: nat, ending: Ending)
    requires Good(fs) && ino in fs.inodes && (fs1, n, ending) == WriteRound(fs, ino, pos, data)
    ensures fs1.disk.Keys == fs.disk.Keys && (0 in fs.disk ==> fs1.disk[0] == fs.disk[0])
  {
    if pos / ZONE_SIZE < MAX_ZONES {
      var p := PlaceOf(ino, pos / ZONE_SIZE).value;
      var (fs0, found) := Lookup(fs, ino, pos / ZONE_SIZE);
      DescendEffect(fs, p, fs0, found);
      assert ZoneOk(fs0, p);
    }
  }

  /** A round that fails for want of zones. */
  lemma RoundStrays(fs: Fs, ino: nat, pos: nat, data: seq<byte>, fs1: Fs, n: nat, ending: Ending)
    requires Good(fs) && ino in fs.inodes && (fs1, n, ending) == WriteRound(fs, ino, pos, data) && !ending.Complete?
    ensures ending == EndingOf(fs, fs1, ino, pos, data)
  {
    var a := pos / ZONE_SIZE;
    RoundMapsFirst(fs, ino, pos, data, fs1, n, ending);
    RoundLostIff(fs, ino, pos, data, fs1, n, ending);
    RoomFirst(fs, ino, pos);
    LastZoneAfter(pos, data);
    if a < MAX_ZONES {
      var p := PlaceOf(ino, a).value;
      var (fs0, found) := Lookup(fs, ino, a);
      DescendEffect(fs, p, fs0, found);
      MissingOne(fs, ino, a);
      hide MissingZones, Missing, WriteRound, Good, StrayEntry, StrayNumber;
      StrayIs(fs, fs1, p, Flags.Free(fs.bits));
    }
  }

  lemma StrayIs(fs: Fs, fs': Fs, p: Place, free: nat)
    requires free < Missing(fs, p) && (free == 0 ==> fs' == fs)
    ensures var lack := Missing(fs, p) - free;
            StrayEntry(fs, p, free) == if lack == 1 then 0 else StrayNumber(fs, fs', p, lack)
  {
    if !p.Slot? {
      var q := ParentOf(p);
      assert Missing(fs, q) == Missing(fs, p) - 1;
      if !q.Slot? && free < Missing(fs, q) {
        var r := ParentOf(q);
        assert r.Slot? && Missing(fs, r) == Missing(fs, q) - 1 <= 1 && StrayEntry(fs, r, free) == 0;
        assert StrayEntry(fs, q, free) == if free >= Missing(fs, r) then 0 else RawEntry(fs.disk, 0, IndexOf(q));
      }
    }
  }

  /** Every write ends so; it comes to write to a block that is not the file's if and only if it strays. */
  lemma {:induction false} WriteEnding(fs: Fs, ino: nat, pos: nat, data: seq<byte>, fs': Fs, w: nat, ending: Ending)
    requires Good(fs) && ino in fs.inodes && Writes(fs, ino, pos, data, fs', w, ending)
    ensures ending == EndingOf(fs, fs', ino, pos, data)
    decreases |data|
  {
    hide Writes, WriteRound, Good, EndingOf;
    var (fs1, n, ending1) := WriteRound(fs, ino, pos, data);
    Unrolled(fs, ino, pos, data, fs1, n, ending1, fs', w, ending);
    if !ending1.Complete? {
      RoundStrays(fs, ino, pos, data, fs1, n, ending1);
    } else {
      RoundGood(fs, ino, pos, data, fs1, n, ending1);
      RoundStraysOn(fs, ino, pos, data, fs1, n, ending1, fs');
      if n < |data| {
        WriteEnding(fs1, ino, pos + n, data[n..], fs', w - n, ending);
      }
    }
  }

  lemma StrayKept(fs: Fs, fs1: Fs, fs': Fs, ino: nat, short: nat, lack: int)
    requires fs1.disk.Keys == fs.disk.Keys && (0 in fs.disk ==> fs1.disk[0] == fs.disk[0])
    ensures EndingAt(fs1, fs', ino, short, lack) == EndingAt(fs, fs', ino, short, lack)
  {
  }

  /** A round that goes well leaves it to the rest of the write. */
  lemma RoundStraysOn(fs: Fs, ino: nat, pos: nat, data: seq<byte>, fs1: Fs, n: nat, ending: Ending, fs': Fs)
    requires Good(fs) && ino in fs.inodes && (fs1, n, ending) == WriteRound(fs, ino, pos, data) && ending.Complete?
    ensures n <= |data|
    ensures EndingOf(fs, fs', ino, pos, data)
            == if n < |data| then EndingOf(fs1, fs', ino, pos + n, data[n..]) else Complete
  {
    hide WriteRound, Good, MissingZones, EndingAt, LastZone, ShortZone, Room;
    RoundShort(fs, ino, pos, data, fs1, n, ending);
    RoundAdvances(fs, ino, pos, data, n);
    RoundBlock0(fs, ino, pos, data, fs1, n, ending);
    RoundTakes(fs, ino, pos, data, n);
    var a := pos / ZONE_SIZE;
    var short := ShortZone(fs, ino, a, a);
    StrayKept(fs, fs1, fs', ino, short, |MissingZones(fs, ino, a, short + 1)| - Flags.Free(fs.bits));
    RoundRoom(fs, ino, pos, data, fs1, n, ending, short);
  }

  /** If block 0 cannot be read, a write that is not complete ends with ENOSPC. */
  lemma NoBlockZero(fs: Fs, ino: nat, pos: nat, data: seq<byte>, fs': Fs, w: nat, ending: Ending)
    requires Good(fs) && ino in fs.inodes && Writes(fs, ino, pos, data, fs', w, ending)
    requires 0 !in fs.disk || !IsZone(fs.disk[0])
    ensures ending.Complete? || ending.NoSpace?
  {
    WriteEnding(fs, ino, pos, data, fs', w, ending);
    WriteBlock0(fs, ino, pos, data, fs', w, ending);
    hide Writes, Good, Room, ShortZone, LastZone, MissingZones;
  }

  lemma {:induction false} WriteBlock0(fs: Fs, ino: nat, pos: nat, data: seq<byte>, fs': Fs, w: nat, ending: Ending)
    requires Good(fs) && ino in fs.inodes && Writes(fs, ino, pos, data, fs', w, ending)
    ensures fs'.disk.Keys == fs.disk.Keys && (0 in fs.disk ==> fs'.disk[0] == fs.disk[0])
    decreases |data|
  {
    hide Writes, WriteRound, Good;
    var (fs1, n, ending1) := WriteRound(fs, ino, pos, data);
    Unrolled(fs, ino, pos, data, fs1, n, ending1, fs', w, ending);
    RoundBlock0(fs, ino, pos, data, fs1, n, ending1);
    if ending1.Complete? && n < |data| {
      RoundGood(fs, ino, pos, data, fs1, n, ending1);
      RoundTakes(fs, ino, pos, data, n);
      WriteBlock0(fs1, ino, pos + n, data[n..], fs', w - n, ending);
    }
  }

  /** On a full volume, a write to the first zone that needs a table is lost exactly if the first entry of block
      0 names a block. */
  lemma FullVolumeLost(fs: Fs, ino: nat, data: seq<byte>)
    requires Good(fs) && ino in fs.inodes && Flags.Free(fs.bits) == 0 && ZoneOf(fs, Slot(ino, DIRECT)) == 0
    ensures WriteFrom(fs, ino, DIRECT * ZONE_SIZE, data).2.Lost? <==>
            && 0 in fs.disk && IsZone(fs.disk[0])
            && var low: int, high: int := fs.disk[0][0], fs.disk[0][1];
               low + 0x100 * high != 0 && low + 0x100 * high in fs.disk
  {
    var pos := DIRECT * ZONE_SIZE;
    var (fs1, n, ending) := WriteRound(fs, ino, pos, data);
    RoundLostIff(fs, ino, pos, data, fs1, n, ending);
    RoundMapsFirst(fs, ino, pos, data, fs1, n, ending);
    var (fs', w, ending') := WriteFrom(fs, ino, pos, data);
    Unrolled(fs, ino, pos, data, fs1, n, ending, fs', w, ending');
    assert pos / ZONE_SIZE == DIRECT && PlaceOf(ino, DIRECT) == Some(Entry(ino, DIRECT, 0));
    assert Missing(fs, Entry(ino, DIRECT, 0)) == 2 && StrayEntry(fs, Slot(ino, DIRECT), 0) == 0;
    assert StrayEntry(fs, Entry(ino, DIRECT, 0), 0) == RawEntry(fs.disk, 0, 0);
  }
}
