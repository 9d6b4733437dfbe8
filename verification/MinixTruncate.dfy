/**
 * Truncating files of a Minix file system (zones.h, minix.c): which zones return to the bitmap.
 */
module MinixTruncate {
  import opened Common
  import opened MinixFile
  import opened MinixZones
  import Flags
  import MinixBitmap

  /** Places in the order zone_free_all goes through them: data zones up to the first hole, ... */
  function DataPlaces(fs: Fs, ino: nat, n: nat): seq<Place>
    decreases MAX_ZONES - n, fs
  {
    if Mapped(fs, ino, n) then Prefixed(true, PlaceOf(ino, n).value, DataPlaces(fs, ino, n + 1)) else []
  }

  /** ... the tables in the last slot's table, ... */
  function TablePlaces(fs: Fs, ino: nat, b: nat): seq<Place>
    decreases PER_ZONE - b, fs
  {
    if b >= PER_ZONE then []
    else Prefixed(ZoneOf(fs, Entry(ino, DIRECT + 1, b)) != 0, Entry(ino, DIRECT + 1, b), TablePlaces(fs, ino, b + 1))
  }

  /** ... and the tables in the inode. */
  function SlotPlaces(fs: Fs, ino: nat, a: nat): seq<Place>
    decreases SLOTS - a, fs
  {
    if a >= SLOTS then []
    else Prefixed(ZoneOf(fs, Slot(ino, a)) != 0, Slot(ino, a), SlotPlaces(fs, ino, a + 1))
  }

  function FreedPlaces(fs: Fs, ino: nat): seq<Place> {
    DataPlaces(fs, ino, 0) + TablePlaces(fs, ino, 0) + SlotPlaces(fs, ino, DIRECT)
  }

  ghost predicate NoRepeats(ps: seq<Place>) {
    forall i, j :: 0 <= i < j < |ps| ==> ps[i] != ps[j]
  }

  /** A place goes in front of those that follow it. */
  function Prefixed(has: bool, p: Place, ps: seq<Place>): seq<Place> {
    if has then [p] + ps else ps
  }

  lemma PrefixedNoRepeats(has: bool, p: Place, ps: seq<Place>)
    requires NoRepeats(ps) && p !in ps
    ensures NoRepeats(Prefixed(has, p, ps))
  {
  }

  lemma PrefixedHas(has: bool, p: Place, ps: seq<Place>, q: Place)
    ensures q in Prefixed(has, p, ps) <==> (has && q == p) || q in ps
  {
  }

  lemma {:induction false} DataPlacesHas(fs: Fs, ino: nat, n: nat, p: Place)
    requires ino in fs.inodes
    ensures p in DataPlaces(fs, ino, n) <==>
            IsPlace(p) && IsData(p) && p.ino == ino && n <= NumberOf(p) < HoleFrom(fs, ino, n)
    decreases MAX_ZONES - n, fs
  {
    if Mapped(fs, ino, n) {
      DataPlacesHas(fs, ino, n + 1, p);
      PrefixedHas(true, PlaceOf(ino, n).value, DataPlaces(fs, ino, n + 1), p);
      if IsPlace(p) && IsData(p) && p.ino == ino {
        PlaceBijective(ino, n, p);
      }
    }
  }

  lemma {:induction false} DataPlacesOnce(fs: Fs, ino: nat, n: nat)
    requires ino in fs.inodes
    ensures NoRepeats(DataPlaces(fs, ino, n))
    decreases MAX_ZONES - n, fs
  {
    if Mapped(fs, ino, n) {
      var p := PlaceOf(ino, n).value;
      PlaceBijective(ino, n, p);
      DataPlacesHas(fs, ino, n + 1, p);
      DataPlacesOnce(fs, ino, n + 1);
      PrefixedNoRepeats(true, p, DataPlaces(fs, ino, n + 1));
    }
  }

  lemma {:induction false} TablePlacesHas(fs: Fs, ino: nat, b: nat, p: Place)
    ensures p in TablePlaces(fs, ino, b) <==>
            p.Entry? && p.ino == ino && p.a == DIRECT + 1 && b <= p.b < PER_ZONE && ZoneOf(fs, p) != 0
    decreases PER_ZONE - b, fs
  {
    if b < PER_ZONE {
      TablePlacesHas(fs, ino, b + 1, p);
      PrefixedHas(ZoneOf(fs, Entry(ino, DIRECT + 1, b)) != 0, Entry(ino, DIRECT + 1, b), TablePlaces(fs, ino, b + 1),
        p);
    }
  }

  lemma {:induction false} TablePlacesOnce(fs: Fs, ino: nat, b: nat)
    ensures NoRepeats(TablePlaces(fs, ino, b))
    decreases PER_ZONE - b, fs
  {
    if b < PER_ZONE {
      var p := Entry(ino, DIRECT + 1, b);
      TablePlacesHas(fs, ino, b + 1, p);
      TablePlacesOnce(fs, ino, b + 1);
      PrefixedNoRepeats(ZoneOf(fs, p) != 0, p, TablePlaces(fs, ino, b + 1));
    }
  }

  lemma {:induction false} SlotPlacesHas(fs: Fs, ino: nat, a: nat, p: Place)
    ensures p in SlotPlaces(fs, ino, a) <==> p.Slot? && p.ino == ino && a <= p.a < SLOTS && ZoneOf(fs, p) != 0
    decreases SLOTS - a, fs
  {
    if a < SLOTS {
      SlotPlacesHas(fs, ino, a + 1, p);
      PrefixedHas(ZoneOf(fs, Slot(ino, a)) != 0, Slot(ino, a), SlotPlaces(fs, ino, a + 1), p);
    }
  }

  lemma {:induction false} SlotPlacesOnce(fs: Fs, ino: nat, a: nat)
    ensures NoRepeats(SlotPlaces(fs, ino, a))
    decreases SLOTS - a, fs
  {
    if a < SLOTS {
      var p := Slot(ino, a);
      SlotPlacesHas(fs, ino, a + 1, p);
      SlotPlacesOnce(fs, ino, a + 1);
      PrefixedNoRepeats(ZoneOf(fs, p) != 0, p, SlotPlaces(fs, ino, a + 1));
    }
  }

  predicate Freed(fs: Fs, ino: nat, p: Place) {
    IsPlace(p) && p.ino == ino && ZoneOf(fs, p) != 0 && (IsData(p) ==> NumberOf(p) < HoleFrom(fs, ino, 0))
  }

  /** Every table of the file, and every data zone before the first hole, is freed, ... */
  lemma FreedPlacesHas(fs: Fs, ino: nat, p: Place)
    requires ino in fs.inodes
    ensures p in FreedPlaces(fs, ino) <==> Freed(fs, ino, p)
  {
    DataPlacesHas(fs, ino, 0, p);
    TablePlacesHas(fs, ino, 0, p);
    SlotPlacesHas(fs, ino, DIRECT, p);
    if IsPlace(p) && IsData(p) && p.ino == ino {
      MappedPlace(fs, ino, p);
    }
  }

  /** ... once each. */
  lemma FreedPlacesOnce(fs: Fs, ino: nat)
    requires ino in fs.inodes
    ensures NoRepeats(FreedPlaces(fs, ino))
  {
    DataPlacesOnce(fs, ino, 0);
    TablePlacesOnce(fs, ino, 0);
    SlotPlacesOnce(fs, ino, DIRECT);
    var d, t, l := DataPlaces(fs, ino, 0), TablePlaces(fs, ino, 0), SlotPlaces(fs, ino, DIRECT);
    forall p | p in d + t
      ensures p !in l && (p in d ==> p !in t)
    {
      DataPlacesHas(fs, ino, 0, p);
      TablePlacesHas(fs, ino, 0, p);
      SlotPlacesHas(fs, ino, DIRECT, p);
    }
    Joined(d, t);
    Joined(d + t, l);
  }

  lemma Joined(s: seq<Place>, t: seq<Place>)
    requires NoRepeats(s) && NoRepeats(t) && forall p :: p in s ==> p !in t
    ensures NoRepeats(s + t)
  {
    forall i, j | 0 <= i < j < |s + t|
      ensures (s + t)[i] != (s + t)[j]
    {
      if i < |s| <= j {
        assert s[i] in s && t[j - |s|] in t;
      }
    }
  }

  /** The flag of the zone at a place. */
  function FlagOf(fs: Fs, p: Place): nat {
    if ZoneOf(fs, p) < fs.first then 0 else ZoneOf(fs, p) - fs.first + 1
  }

  /** The flag of the zone at a place is in the first block of the bitmap. */
  predicate Inside(fs: Fs, p: Place) {
    FlagOf(fs, p) < MinixBitmap.BITS_PER_ZONE
  }

  predicate AllInside(fs: Fs, ps: seq<Place>) {
    forall i :: 0 <= i < |ps| ==> Inside(fs, ps[i])
  }

  /** minix_free_zone of the zone at each place in turn. */
  function FreeZones(fs: Fs, bits: seq<bool>, ps: seq<Place>): (bits': seq<bool>)
    ensures |bits'| == |bits|
    decreases |ps|
  {
    if ps == [] then bits else FreeZones(fs, MinixBitmap.Cleared(bits, FlagOf(fs, ps[0])), ps[1..])
  }

  lemma {:induction false} FreeZonesFlags(fs: Fs, bits: seq<bool>, ps: seq<Place>, k: nat)
    requires k < |bits|
    ensures FreeZones(fs, bits, ps)[k] <==> bits[k] && !(exists p :: p in ps && FlagOf(fs, p) == k)
    decreases |ps|
  {
    if ps != [] {
      FreeZonesFlags(fs, MinixBitmap.Cleared(bits, FlagOf(fs, ps[0])), ps[1..], k);
      assert ps == [ps[0]] + ps[1..];
    }
  }

  /** zone_free_all adds one free zone for each. */
  lemma {:induction false} FreeZonesCount(fs: Fs, bits: seq<bool>, ps: seq<Place>)
    requires NoRepeats(ps) && forall i :: 0 <= i < |ps| ==> FlagOf(fs, ps[i]) < |bits| && bits[FlagOf(fs, ps[i])]
    requires forall i, j :: 0 <= i < j < |ps| ==> FlagOf(fs, ps[i]) != FlagOf(fs, ps[j])
    ensures Flags.Free(FreeZones(fs, bits, ps)) == Flags.Free(bits) + |ps|
    decreases |ps|
  {
    if ps != [] {
      Flags.FreeUpdate(bits, FlagOf(fs, ps[0]), false);
      FreeZonesCount(fs, MinixBitmap.Cleared(bits, FlagOf(fs, ps[0])), ps[1..]);
    }
  }

  /** What is left of the volume when the zones of a file are freed and its size is 0. */
  function Truncated(fs: Fs, ino: nat): Fs
    requires ino in fs.inodes
  {
    fs.(bits := FreeZones(fs, fs.bits, FreedPlaces(fs, ino)), inodes := fs.inodes[ino := Inode(seq(SLOTS, _ => 0), 0)])
  }

  /** minix_truncate: None if bit_free writes past the end of a buffer on the way, after which nothing is known. */
  function Truncate(fs: Fs, ino: nat): Option<Fs>
    requires ino in fs.inodes
  {
    if AllInside(fs, FreedPlaces(fs, ino)) then Some(Truncated(fs, ino)) else None
  }

  /** A truncation stays in its buffers if and only if the flag of each zone it frees is in the first block of
      the bitmap. */
  lemma TruncateInsideIff(fs: Fs, ino: nat)
    requires ino in fs.inodes
    ensures Truncate(fs, ino).Some? <==> forall p :: Freed(fs, ino, p) ==> Inside(fs, p)
  {
    var ps := FreedPlaces(fs, ino);
    forall p
      ensures p in ps <==> Freed(fs, ino, p)
    {
      FreedPlacesHas(fs, ino, p);
    }
    if forall p :: Freed(fs, ino, p) ==> Inside(fs, p) {
      forall i | 0 <= i < |ps|
        ensures Inside(fs, ps[i])
      {
        assert ps[i] in ps;
      }
    }
  }

  /** The file truncated has no zones left, and those of other files are where they were. */
  lemma {:induction false} TruncatedZones(fs: Fs, ino: nat, fs': Fs, q: Place)
    requires ino in fs.inodes && Truncate(fs, ino) == Some(fs')
    ensures ZoneOf(fs', q) == if q.ino == ino then 0 else ZoneOf(fs, q)
    decreases if q.Deep? then 2 else if q.Entry? then 1 else 0
  {
    if q.Deep? {
      TruncatedZones(fs, ino, fs', ParentOf(q));
    }
  }

  lemma SoleFlag(fs: Fs, p: Place, q: Place)
    requires Good(fs) && IsPlace(p) && IsPlace(q) && ZoneOf(fs, p) != 0 && ZoneOf(fs, q) != 0
    ensures FlagOf(fs, p) == FlagOf(fs, q) <==> p == q
  {
    assert ZoneOk(fs, p) && ZoneOk(fs, q) && Sole(fs, p, q);
  }

  /** The flag of a zone is freed only for its own place. */
  lemma FreedOnlyHere(fs: Fs, ino: nat, ps: seq<Place>, p: Place)
    requires Good(fs) && ino in fs.inodes && ps == FreedPlaces(fs, ino) && IsPlace(p) && ZoneOf(fs, p) != 0
    ensures (exists q :: q in ps && FlagOf(fs, q) == FlagOf(fs, p)) <==> p in ps
  {
    forall q | q in ps
      ensures FlagOf(fs, q) == FlagOf(fs, p) <==> q == p
    {
      FreedPlacesHas(fs, ino, q);
      SoleFlag(fs, p, q);
    }
  }

  /** Exactly the flags of the zones freed are cleared: those of tables, and those before the first hole. */
  lemma TruncateFlags(fs: Fs, ino: nat, fs': Fs, p: Place)
    requires Good(fs) && ino in fs.inodes && Truncate(fs, ino) == Some(fs') && IsPlace(p) && ZoneOf(fs, p) != 0
    ensures FlagOf(fs, p) < |fs'.bits| && fs.bits[FlagOf(fs, p)]
    ensures fs'.bits[FlagOf(fs, p)] <==> !Freed(fs, ino, p)
  {
    assert ZoneOk(fs, p);
    var ps := FreedPlaces(fs, ino);
    FreeZonesFlags(fs, fs.bits, ps, FlagOf(fs, p));
    FreedPlacesHas(fs, ino, p);
    FreedOnlyHere(fs, ino, ps, p);
  }

  /** Nothing but zones of the file is freed. */
  lemma TruncateKeepsFlags(fs: Fs, ino: nat, fs': Fs, k: nat)
    requires Good(fs) && ino in fs.inodes && Truncate(fs, ino) == Some(fs') && k < |fs.bits|
    ensures fs'.bits[k] != fs.bits[k] ==>
              k > 0 && fs.bits[k] && exists p :: IsPlace(p) && p.ino == ino && ZoneOf(fs, p) == fs.first + k - 1
  {
    FreeZonesFlags(fs, fs.bits, FreedPlaces(fs, ino), k);
    if fs'.bits[k] != fs.bits[k] {
      var p :| p in FreedPlaces(fs, ino) && FlagOf(fs, p) == k;
      FreedPlacesHas(fs, ino, p);
      assert ZoneOk(fs, p);
      assert ZoneOf(fs, p) == fs.first + k - 1;
    }
  }

  lemma TruncateZoneOk(fs: Fs, ino: nat, fs': Fs, q: Place)
    requires Good(fs) && ino in fs.inodes && Truncate(fs, ino) == Some(fs')
    ensures ZoneOk(fs', q)
  {
    TruncatedZones(fs, ino, fs', q);
    assert ZoneOk(fs, q);
    if IsPlace(q) && ZoneOf(fs, q) != 0 {
      TruncateFlags(fs, ino, fs', q);
    }
  }

  lemma TruncateFreeOk(fs: Fs, ino: nat, fs': Fs, k: nat)
    requires Good(fs) && ino in fs.inodes && Truncate(fs, ino) == Some(fs')
    ensures FreeOk(fs', k)
  {
    assert FreeOk(fs, k);
    if k < |fs.bits| {
      TruncateKeepsFlags(fs, ino, fs', k);
      if fs'.bits[k] != fs.bits[k] {
        var p :| IsPlace(p) && p.ino == ino && ZoneOf(fs, p) == fs.first + k - 1;
        assert ZoneOk(fs, p);
      }
    }
  }

  lemma TruncateGood(fs: Fs, ino: nat, fs': Fs)
    requires Good(fs) && ino in fs.inodes && Truncate(fs, ino) == Some(fs')
    ensures Good(fs')
  {
    forall q
      ensures ZoneOk(fs', q)
    {
      TruncateZoneOk(fs, ino, fs', q);
    }
    forall q, r
      ensures Sole(fs', q, r)
    {
      TruncatedZones(fs, ino, fs', q);
      TruncatedZones(fs, ino, fs', r);
      assert Sole(fs, q, r);
    }
    forall k: nat
      ensures FreeOk(fs', k)
    {
      TruncateFreeOk(fs, ino, fs', k);
    }
    TruncateKeepsFlags(fs, ino, fs', 0);
  }

  /** The file has a zone there. */
  predicate OfFile(fs: Fs, ino: nat, p: Place) {
    IsPlace(p) && p.ino == ino && ZoneOf(fs, p) != 0
  }

  /** Every zone of the file returns to the bitmap, and nothing else is written, if and only if none comes after
      a hole and all their flags are in the first block. */
  lemma AllReturnedIff(fs: Fs, ino: nat)
    requires Good(fs) && ino in fs.inodes
    ensures (Truncate(fs, ino).Some? && forall p :: OfFile(fs, ino, p) ==>
               FlagOf(fs, p) < |Truncate(fs, ino).value.bits| && !Truncate(fs, ino).value.bits[FlagOf(fs, p)])
       <==> HoleFree(fs, ino) && forall p :: OfFile(fs, ino, p) ==> Inside(fs, p)
  {
    TruncateInsideIff(fs, ino);
    HoleFreeIff(fs, ino);
    assert forall p :: Freed(fs, ino, p) ==> OfFile(fs, ino, p);
    if Truncate(fs, ino).Some? {
      var fs' := Truncate(fs, ino).value;
      forall p | OfFile(fs, ino, p)
        ensures FlagOf(fs, p) < |fs'.bits| && (!fs'.bits[FlagOf(fs, p)] <==> Freed(fs, ino, p))
      {
        TruncateFlags(fs, ino, fs', p);
      }
    }
  }

  /** A volume on which truncating a file of one byte writes past the end of a buffer. */
  function Distant(): Fs {
    Fs(1, seq(2 * MinixBitmap.BITS_PER_ZONE, _ => true), map[8192 := ZeroZone()],
       map[1 := Inode([8192, 0, 0, 0, 0, 0, 0, 0, 0], 1)])
  }

  lemma DistantZones(p: Place)
    requires IsPlace(p)
    ensures ZoneOf(Distant(), p) == if p == Slot(1, 0) then 8192 else 0
  {
  }

  lemma DistantStrays()
    ensures FilesOk(Distant()) && 1 in Distant().inodes && Truncate(Distant(), 1) == None
  {
    var fs := Distant();
    forall p | IsPlace(p)
      ensures ZoneOf(fs, p) == if p == Slot(1, 0) then 8192 else 0
    {
      DistantZones(p);
    }
    assert Good(fs);
    assert Mapped(fs, 1, 0) by {
      assert PlaceOf(1, 0) == Some(Slot(1, 0));
    }
    forall j, n: nat
      ensures Mapped(fs, j, n) <==> j == 1 && n == 0
    {
      if n < MAX_ZONES {
        PlaceBijective(j, n, PlaceOf(j, n).value);
      }
    }
    assert FileOk(fs, 1);
    assert Freed(fs, 1, Slot(1, 0)) && !Inside(fs, Slot(1, 0));
    TruncateInsideIff(fs, 1);
  }

  lemma MappedPlace(fs: Fs, ino: nat, p: Place)
    requires IsPlace(p) && IsData(p) && p.ino == ino
    ensures Mapped(fs, ino, NumberOf(p)) <==> ZoneOf(fs, p) != 0
  {
    PlaceBijective(ino, NumberOf(p), p);
  }

  /** All zones of a file are freed if and only if it has no hole. */
  lemma HoleFreeIff(fs: Fs, ino: nat)
    requires ino in fs.inodes
    ensures HoleFree(fs, ino) <==> forall p :: OfFile(fs, ino, p) ==> Freed(fs, ino, p)
  {
    var k := HoleFrom(fs, ino, 0);
    HoleFreeNumbers(fs, ino);
    if forall p :: OfFile(fs, ino, p) ==> Freed(fs, ino, p) {
      forall n | 0 <= n && Mapped(fs, ino, n)
        ensures n < k
      {
        var p := PlaceOf(ino, n).value;
        PlaceBijective(ino, n, p);
        assert OfFile(fs, ino, p);
      }
    } else {
      var p :| OfFile(fs, ino, p) && !Freed(fs, ino, p);
      MappedPlace(fs, ino, p);
    }
  }

  /** Truncating conserves zones: as many become free as are freed. */
  lemma TruncateConserves(fs: Fs, ino: nat, fs': Fs)
    requires Good(fs) && ino in fs.inodes && Truncate(fs, ino) == Some(fs')
    ensures Flags.Free(fs'.bits) == Flags.Free(fs.bits) + |FreedPlaces(fs, ino)|
  {
    FreedPlacesOnce(fs, ino);
    var ps := FreedPlaces(fs, ino);
    forall p | p in ps
      ensures IsPlace(p) && p.ino == ino && ZoneOf(fs, p) != 0
    {
      FreedPlacesHas(fs, ino, p);
    }
    forall i | 0 <= i < |ps|
      ensures FlagOf(fs, ps[i]) < |fs.bits| && fs.bits[FlagOf(fs, ps[i])]
    {
      assert ps[i] in ps && ZoneOk(fs, ps[i]);
    }
    forall i, j | 0 <= i < j < |ps|
      ensures FlagOf(fs, ps[i]) != FlagOf(fs, ps[j])
    {
      assert ps[i] in ps && ps[j] in ps && ZoneOk(fs, ps[i]) && ZoneOk(fs, ps[j]) && Sole(fs, ps[i], ps[j]);
    }
    FreeZonesCount(fs, fs.bits, ps);
  }

  /** Truncating leaves an empty file, and every other as it was. */
  lemma TruncateRefines(fs: Fs, ino: nat, fs': Fs)
    requires FilesOk(fs) && ino in fs.inodes && Truncate(fs, ino) == Some(fs')
    ensures FilesOk(fs') && fs'.inodes.Keys == fs.inodes.Keys
    ensures forall j :: j in fs.inodes ==> Content(fs', j) == if j == ino then [] else Content(fs, j)
    ensures ZeroTails(fs) ==> ZeroTails(fs')
  {
    TruncateGood(fs, ino, fs');
    forall q
      ensures ZoneOf(fs', q) == if q.ino == ino then 0 else ZoneOf(fs, q)
    {
      TruncatedZones(fs, ino, fs', q);
    }
    forall j: nat, n: nat
      ensures Mapped(fs', j, n) == (j != ino && Mapped(fs, j, n))
    {
    }
    forall j: nat, x: nat
      ensures ByteAt(fs', j, x) == if j == ino then 0 else ByteAt(fs, j, x)
    {
    }
    forall j
      ensures FileOk(fs', j)
    {
      assert FileOk(fs, j);
    }
    forall j | j in fs.inodes && j != ino
      ensures Content(fs', j) == Content(fs, j)
    {
      assert fs'.inodes[j] == fs.inodes[j];
    }
  }
}
