/**
 * Zones of a Minix version 1 file system (zones.h): an inode names seven data zones, a table of 512
 * more, and a table of 512 such tables; zones are handed out by a bitmap, and each is named in one
 * place only.
 */
module MinixZones {
  import opened Common
  import Flags
  import MinixBitmap

  const ZONE_SIZE := 1024
  const PER_ZONE := 512
  const DIRECT := 7
  const SLOTS := 9
  const MAX_ZONES := DIRECT + PER_ZONE + PER_ZONE * PER_ZONE
  const WORD16 := 0x1_0000

  // ----- zone number tables -----

  predicate IsZone(t: seq<byte>) {
    |t| == ZONE_SIZE
  }

  function ZeroZone(): (t: seq<byte>)
    ensures IsZone(t) && (forall i :: 0 <= i < ZONE_SIZE ==> t[i] == 0)
    ensures forall i :: 0 <= i < PER_ZONE ==> TableGet(t, i) == 0
  {
    Zeros(ZONE_SIZE)
  }

  /** Entry `i` of a table of little-endian 16-bit zone numbers. */
  function TableGet(t: seq<byte>, i: nat): (z: nat)
    requires IsZone(t) && i < PER_ZONE
    ensures z < WORD16
  {
    var low: int, high: int := t[2 * i], t[2 * i + 1];
    low + 0x100 * high
  }

  /** The low byte of an entry comes first. */
  lemma TableGetIs(t: seq<byte>, i: nat)
    requires IsZone(t) && i < PER_ZONE
    ensures TableGet(t, i) % 0x100 == t[2 * i] && TableGet(t, i) / 0x100 == t[2 * i + 1]
  {
  }

  function TableSet(t: seq<byte>, i: nat, z: nat): (t': seq<byte>)
    requires IsZone(t) && i < PER_ZONE && z < WORD16
    ensures IsZone(t')
    ensures forall j :: 0 <= j < PER_ZONE ==> TableGet(t', j) == if j == i then z else TableGet(t, j)
  {
    t[2 * i := z % 0x100][2 * i + 1 := z / 0x100]
  }

  // ----- where zone numbers are kept -----

  /** A slot of an inode, an entry of the table a slot names, or an entry of a table that an entry of the last
      slot's table names. */
  datatype Place = Slot(ino: nat, a: nat) | Entry(ino: nat, a: nat, b: nat) | Deep(ino: nat, b: nat, c: nat)

  predicate IsPlace(p: Place) {
    match p
    case Slot(_, a) => a < SLOTS
    case Entry(_, a, b) => DIRECT <= a < SLOTS && b < PER_ZONE
    case Deep(_, b, c) => b < PER_ZONE && c < PER_ZONE
  }

  /** The place holds the number of a zone of file data, rather than of a table. */
  predicate IsData(p: Place) {
    match p
    case Slot(_, a) => a < DIRECT
    case Entry(_, a, _) => a == DIRECT
    case Deep(_, _, _) => true
  }

  /** zone_calculate_tier: where the number of zone `znum` of a file is kept. */
  function PlaceOf(ino: nat, znum: nat): (p: Option<Place>)
    ensures p.Some? <==> znum < MAX_ZONES
    ensures p.Some? ==> IsPlace(p.value) && IsData(p.value) && p.value.ino == ino
  {
    if znum < DIRECT then Some(Slot(ino, znum))
    else if znum - DIRECT < PER_ZONE then Some(Entry(ino, DIRECT, znum - DIRECT))
    else
      var n := znum - DIRECT - PER_ZONE;
      if n < PER_ZONE * PER_ZONE then Some(Deep(ino, n / PER_ZONE, n % PER_ZONE)) else None
  }

  function NumberOf(p: Place): nat {
    match p
    case Slot(_, a) => a
    case Entry(_, _, b) => DIRECT + b
    case Deep(_, b, c) => DIRECT + PER_ZONE + b * PER_ZONE + c
  }

  /** Every data place is that of exactly one zone number. */
  lemma PlaceBijective(ino: nat, znum: nat, p: Place)
    requires IsPlace(p) && IsData(p) && p.ino == ino
    ensures NumberOf(p) < MAX_ZONES && PlaceOf(ino, NumberOf(p)) == Some(p)
    ensures PlaceOf(ino, znum) == Some(p) ==> znum == NumberOf(p)
  {
    if p.Deep? {
      DivModUnique(p.b * PER_ZONE + p.c, PER_ZONE, p.b, p.c);
    }
  }

  // ----- the file system -----

  datatype Inode = Inode(zones: seq<nat>, size: nat)

  /** `bits` is the zone bitmap: flag `k` is that of zone `first + k - 1`. */
  datatype Fs = Fs(first: nat, bits: seq<bool>, disk: map<nat, seq<byte>>, inodes: map<nat, Inode>)

  function TableAt(disk: map<nat, seq<byte>>, t: nat, i: nat): (z: nat)
  {
    if t != 0 && t in disk && IsZone(disk[t]) && i < PER_ZONE then TableGet(disk[t], i) else 0
  }

  function SlotAt(inodes: map<nat, Inode>, ino: nat, a: nat): nat {
    if ino in inodes && a < |inodes[ino].zones| then inodes[ino].zones[a] else 0
  }

  /** The table a place is in, or 0 for an inode slot. */
  function TableOf(fs: Fs, p: Place): nat {
    match p
    case Slot(_, _) => 0
    case Entry(ino, a, _) => SlotAt(fs.inodes, ino, a)
    case Deep(ino, b, _) => TableAt(fs.disk, SlotAt(fs.inodes, ino, DIRECT + 1), b)
  }

  function IndexOf(p: Place): nat {
    match p
    case Slot(_, a) => a
    case Entry(_, _, b) => b
    case Deep(_, _, c) => c
  }

  function ParentOf(p: Place): Place {
    match p
    case Slot(_, _) => p
    case Entry(ino, a, _) => Slot(ino, a)
    case Deep(ino, b, _) => Entry(ino, DIRECT + 1, b)
  }

  /** zone_lookup without creating: the zone number at a place, or 0. */
  function ZoneOf(fs: Fs, p: Place): nat {
    if p.Slot? then SlotAt(fs.inodes, p.ino, p.a) else TableAt(fs.disk, TableOf(fs, p), IndexOf(p))
  }

  predicate InUse(fs: Fs, z: nat) {
    && fs.first <= z < WORD16 && z - fs.first + 1 < |fs.bits| && fs.bits[z - fs.first + 1]
    && z in fs.disk && IsZone(fs.disk[z])
  }

  ghost predicate ZoneOk(fs: Fs, p: Place) {
    IsPlace(p) && ZoneOf(fs, p) != 0 ==> InUse(fs, ZoneOf(fs, p))
  }

  ghost predicate Sole(fs: Fs, p: Place, q: Place) {
    IsPlace(p) && IsPlace(q) && p != q && ZoneOf(fs, p) != 0 ==> ZoneOf(fs, p) != ZoneOf(fs, q)
  }

  /** A zone that is free is on the disk and has a 16-bit number. */
  ghost predicate FreeOk(fs: Fs, k: nat) {
    k < |fs.bits| && !fs.bits[k] ==>
      fs.first + k - 1 in fs.disk && IsZone(fs.disk[fs.first + k - 1]) && fs.first + k - 1 < WORD16
  }

  /** Flag 0 is reserved, zones in use are marked, and each is named in one place only. */
  ghost predicate Good(fs: Fs) {
    && fs.first >= 1 && fs.bits != [] && fs.bits[0]
    && (forall ino :: ino in fs.inodes ==> |fs.inodes[ino].zones| == SLOTS)
    && (forall k :: FreeOk(fs, k))
    && (forall p :: ZoneOk(fs, p))
    && (forall p, q :: Sole(fs, p, q))
  }

  // ----- allocation -----

  /** Write zone number `z` at a place whose table exists. */
  function Put(fs: Fs, p: Place, z: nat): Fs
    requires z < WORD16 && IsPlace(p)
  {
    if p.Slot? then
      if p.ino in fs.inodes && p.a < |fs.inodes[p.ino].zones| then
        fs.(inodes := fs.inodes[p.ino := fs.inodes[p.ino].(zones := fs.inodes[p.ino].zones[p.a := z])])
      else fs
    else
      var t := TableOf(fs, p);
      if t in fs.disk && IsZone(fs.disk[t]) then fs.(disk := fs.disk[t := TableSet(fs.disk[t], IndexOf(p), z)]) else fs
  }

  /** minix_alloc_zone: mark the first free zone and clear it. */
  function AllocZone(fs: Fs): (Fs, nat) {
    var (bits, k) := MinixBitmap.AllocBit(fs.bits);
    if k == 0 || fs.first + k - 1 < 0 then (fs.(bits := bits), 0)
    else (fs.(bits := bits, disk := fs.disk[fs.first + k - 1 := ZeroZone()]), fs.first + k - 1)
  }

  /** zone_lookup at one tier: the zone at a place, allocated if there is none yet. */
  function Ensure(fs: Fs, p: Place): (Fs, nat)
    requires IsPlace(p)
  {
    if ZoneOf(fs, p) != 0 then (fs, ZoneOf(fs, p))
    else
      var (fs1, z) := AllocZone(fs);
      if z == 0 || z >= WORD16 then (fs1, 0) else (Put(fs1, p, z), z)
  }

  /** minix_alloc_zone hands out a zone nothing else names. */
  lemma AllocZoneFresh(fs: Fs, fs1: Fs, z: nat)
    requires Good(fs) && (fs1, z) == AllocZone(fs)
    ensures if z == 0 then fs1 == fs && Flags.Free(fs.bits) == 0
            else
              && fs.first <= z < WORD16 && z - fs.first + 1 < |fs.bits| && !fs.bits[z - fs.first + 1] && z in fs.disk
              && IsZone(fs.disk[z])
              && fs1 == fs.(bits := fs.bits[z - fs.first + 1 := true], disk := fs.disk[z := ZeroZone()])
              && Flags.Free(fs1.bits) == Flags.Free(fs.bits) - 1
    ensures forall p :: IsPlace(p) && z != 0 ==> ZoneOf(fs, p) != z
  {
    MinixBitmap.AllocTakesOne(fs.bits);
    if z != 0 {
      assert FreeOk(fs, z - fs.first + 1);
      forall p | IsPlace(p)
        ensures ZoneOf(fs, p) != z
      {
        assert ZoneOk(fs, p);
      }
    }
  }

  lemma TableIsParentZone(fs: Fs, p: Place)
    requires IsPlace(p) && !p.Slot?
    ensures TableOf(fs, p) == ZoneOf(fs, ParentOf(p)) && IsPlace(ParentOf(p)) && !IsData(ParentOf(p))
  {
  }

  /** The state after zone_lookup has filled an empty place with the new zone `z`. */
  ghost predicate Filled(fs: Fs, p: Place, fs': Fs, z: nat) {
    && Good(fs) && IsPlace(p) && p.ino in fs.inodes && ZoneOf(fs, p) == 0 && (!p.Slot? ==> TableOf(fs, p) != 0)
    && z != 0 && (fs', z) == Ensure(fs, p)
  }

  /** Filling a place writes its table, or its inode, and the new zone, and nothing else. */
  lemma FilledParts(fs: Fs, p: Place, fs': Fs, z: nat)
    requires Filled(fs, p, fs', z)
    ensures fs.first <= z < WORD16 && z - fs.first + 1 < |fs.bits| && !fs.bits[z - fs.first + 1] && z in fs.disk
    ensures fs'.first == fs.first && fs'.bits == fs.bits[z - fs.first + 1 := true]
    ensures forall q :: IsPlace(q) ==> ZoneOf(fs, q) != z
    ensures Flags.Free(fs'.bits) == Flags.Free(fs.bits) - 1
    ensures if p.Slot? then
              && |fs.inodes[p.ino].zones| == SLOTS && fs'.disk == fs.disk[z := ZeroZone()]
              && fs'.inodes == fs.inodes[p.ino := fs.inodes[p.ino].(zones := fs.inodes[p.ino].zones[p.a := z])]
            else
              var t := TableOf(fs, p);
              && t in fs.disk && IsZone(fs.disk[t]) && t != z && fs'.inodes == fs.inodes
              && fs'.disk == fs.disk[z := ZeroZone()][t := TableSet(fs.disk[t], IndexOf(p), z)]
  {
    var (fs1, z1) := AllocZone(fs);
    AllocZoneFresh(fs, fs1, z1);
    if !p.Slot? {
      TableIsParentZone(fs, p);
      assert ZoneOk(fs, ParentOf(p));
      if p.Deep? {
        TableIsParentZone(fs, ParentOf(p));
        assert ZoneOf(fs, ParentOf(ParentOf(p))) != z;
      }
      assert TableOf(fs1, p) == TableOf(fs, p);
    }
  }

  /** Filling a place changes the zone number there, and no other. */
  lemma {:induction false} FilledZones(fs: Fs, p: Place, fs': Fs, z: nat, q: Place)
    requires Filled(fs, p, fs', z) && IsPlace(q)
    ensures ZoneOf(fs', q) == if q == p then z else ZoneOf(fs, q)
    decreases if q.Deep? then 2 else if q.Entry? then 1 else 0
  {
    FilledParts(fs, p, fs', z);
    if !q.Slot? {
      var parent := ParentOf(q);
      TableIsParentZone(fs, q);
      TableIsParentZone(fs', q);
      FilledZones(fs, p, fs', z, parent);
      if !p.Slot? {
        TableIsParentZone(fs, p);
        assert Sole(fs, parent, ParentOf(p));
      }
    }
  }

  lemma FilledSole(fs: Fs, p: Place, fs': Fs, z: nat, q: Place, r: Place)
    requires Filled(fs, p, fs', z)
    ensures Sole(fs', q, r)
  {
    FilledParts(fs, p, fs', z);
    if IsPlace(q) && IsPlace(r) {
      FilledZones(fs, p, fs', z, q);
      FilledZones(fs, p, fs', z, r);
      assert Sole(fs, q, r);
    }
  }

  lemma FilledZoneOk(fs: Fs, p: Place, fs': Fs, z: nat, q: Place)
    requires Filled(fs, p, fs', z)
    ensures ZoneOk(fs', q)
  {
    FilledParts(fs, p, fs', z);
    if IsPlace(q) {
      FilledZones(fs, p, fs', z, q);
      assert ZoneOk(fs, q);
    }
  }

  lemma FilledGood(fs: Fs, p: Place, fs': Fs, z: nat)
    requires Filled(fs, p, fs', z)
    ensures Good(fs')
  {
    FilledParts(fs, p, fs', z);
    forall q
      ensures ZoneOk(fs', q)
    {
      FilledZoneOk(fs, p, fs', z, q);
    }
    forall q, r
      ensures Sole(fs', q, r)
    {
      FilledSole(fs, p, fs', z, q, r);
    }
    forall k
      ensures FreeOk(fs', k)
    {
      assert FreeOk(fs, k);
    }
  }

  /** The contents of the zone at a place. */
  function Contents(fs: Fs, p: Place): seq<byte> {
    if ZoneOf(fs, p) in fs.disk then fs.disk[ZoneOf(fs, p)] else []
  }

  lemma FilledContents(fs: Fs, p: Place, fs': Fs, z: nat, q: Place)
    requires Filled(fs, p, fs', z) && IsPlace(q) && IsData(q)
    ensures if q == p then Contents(fs', q) == ZeroZone()
            else ZoneOf(fs, q) != 0 ==> Contents(fs', q) == Contents(fs, q)
  {
    FilledParts(fs, p, fs', z);
    FilledZones(fs, p, fs', z, q);
    assert ZoneOk(fs, q);
    if !p.Slot? {
      TableIsParentZone(fs, p);
      assert Sole(fs, q, ParentOf(p));
    }
  }

  // ----- finding a zone, creating what is missing -----

  /**
   What zone_lookup comes to: the zone of the file, none, or a number it
   picked up somewhere else. A table that could not be allocated has number 0,
   and the lookup goes on in block 0 as if that were the table.
   */
  datatype Found = Zone(z: nat) | Full | Astray(z: nat)

  /** Entry `i` of block `t`, whatever that holds; 0 if the block cannot be read. */
  function RawEntry(disk: map<nat, seq<byte>>, t: nat, i: nat): nat {
    if t in disk && IsZone(disk[t]) && i < PER_ZONE then TableGet(disk[t], i) else 0
  }

  /** The loop over the tiers down to a place. */
  function Descend(fs: Fs, p: Place): (Fs, Found)
    requires IsPlace(p)
    decreases if p.Deep? then 2 else if p.Entry? then 1 else 0
  {
    if p.Slot? then
      var (fs1, z) := Ensure(fs, p);
      (fs1, if z == 0 then Full else Zone(z))
    else
      var (fs1, found) := Descend(fs, ParentOf(p));
      if found.Zone? then
        var (fs2, z) := Ensure(fs1, p);
        (fs2, if z == 0 then Full else Zone(z))
      else
        var z := RawEntry(fs1.disk, if found.Astray? then found.z else 0, IndexOf(p));
        (fs1, if z == 0 then Full else Astray(z))
  }

  /** `q` is `p` or leads to it. */
  predicate LeadsTo(q: Place, p: Place) {
    q == p || q == ParentOf(p) || q == ParentOf(ParentOf(p))
  }

  /** Zones stay where they are, with what they hold, and new ones appear only on the way to `p`. */
  ghost predicate Kept(fs: Fs, fs': Fs, p: Place, q: Place) {
    IsPlace(q) ==>
      && (ZoneOf(fs, q) != 0 ==> ZoneOf(fs', q) == ZoneOf(fs, q) && (IsData(q) ==> Contents(fs', q) == Contents(fs, q)))
      && (ZoneOf(fs, q) == 0 && !LeadsTo(q, p) ==> ZoneOf(fs', q) == 0)
  }

  ghost predicate Extends(fs: Fs, fs': Fs, p: Place) {
    && fs'.first == fs.first && |fs'.bits| == |fs.bits| && fs'.disk.Keys == fs.disk.Keys
    && (0 in fs.disk ==> fs'.disk[0] == fs.disk[0])
    && fs'.inodes.Keys == fs.inodes.Keys
    && (forall ino :: ino in fs.inodes ==> fs'.inodes[ino].size == fs.inodes[ino].size)
    && (forall q :: Kept(fs, fs', p, q))
  }

  /** How many zones there are to allocate on the way to a place. */
  function Missing(fs: Fs, p: Place): (n: nat)
    decreases if p.Deep? then 2 else if p.Entry? then 1 else 0
  {
    if ZoneOf(fs, p) != 0 then 0 else if p.Slot? then 1 else 1 + Missing(fs, ParentOf(p))
  }

  /** One tier. */
  lemma EnsureEffect(fs: Fs, p: Place, fs': Fs, z: nat)
    requires Good(fs) && IsPlace(p) && p.ino in fs.inodes && (!p.Slot? ==> ZoneOf(fs, ParentOf(p)) != 0)
    requires (fs', z) == Ensure(fs, p)
    ensures Good(fs') && Extends(fs, fs', p)
    ensures z != 0 ==> ZoneOf(fs', p) == z && (ZoneOf(fs, p) == 0 && IsData(p) ==> Contents(fs', p) == ZeroZone())
    ensures forall q :: IsPlace(q) && q != p ==> ZoneOf(fs', q) == ZoneOf(fs, q)
    ensures if ZoneOf(fs, p) != 0 || Flags.Free(fs.bits) == 0 then fs' == fs && z == ZoneOf(fs, p)
            else z != 0 && Flags.Free(fs'.bits) == Flags.Free(fs.bits) - 1
  {
    if ZoneOf(fs, p) == 0 {
      var (fs1, z1) := AllocZone(fs);
      AllocZoneFresh(fs, fs1, z1);
      if z1 != 0 {
        if !p.Slot? {
          TableIsParentZone(fs, p);
        }
        FilledParts(fs, p, fs', z);
        FilledGood(fs, p, fs', z);
        forall q | IsPlace(q)
          ensures ZoneOf(fs', q) == if q == p then z else ZoneOf(fs, q)
        {
          FilledZones(fs, p, fs', z, q);
        }
        forall q
          ensures Kept(fs, fs', p, q)
        {
          if IsPlace(q) && IsData(q) {
            FilledContents(fs, p, fs', z, q);
          }
        }
        if IsData(p) {
          FilledContents(fs, p, fs', z, p);
        }
      }
    }
  }

  lemma ExtendsTrans(fs: Fs, fs1: Fs, fs2: Fs, p: Place)
    requires Extends(fs, fs1, ParentOf(p)) && Extends(fs1, fs2, p)
    ensures Extends(fs, fs2, p)
  {
    forall q
      ensures Kept(fs, fs2, p, q)
    {
      assert Kept(fs, fs1, ParentOf(p), q) && Kept(fs1, fs2, p, q);
    }
  }

  lemma ExtendsRefl(fs: Fs, p: Place)
    ensures Extends(fs, fs, p)
  {
  }

  /** The number that a lookup with `free` zones to allocate from picks up when a table on the way is missing; 0
      for none. */
  function StrayEntry(fs: Fs, p: Place, free: nat): nat
    decreases if p.Deep? then 2 else if p.Entry? then 1 else 0
  {
    if p.Slot? || free >= Missing(fs, ParentOf(p)) then 0
    else RawEntry(fs.disk, StrayEntry(fs, ParentOf(p), free), IndexOf(p))
  }

  /** What a lookup finds, by the zones that are free. */
  function Outcome(fs: Fs, p: Place, free: nat, z: nat): Found {
    if free >= Missing(fs, p) then Zone(z)
    else if StrayEntry(fs, p, free) == 0 then Full
    else Astray(StrayEntry(fs, p, free))
  }

  /**
   zone_lookup, when creating: what it finds depends on the free zones and, if
   a table is missing, on block 0; what it leaves behind is in order.
   */
  lemma {:induction false} DescendEffect(fs: Fs, p: Place, fs': Fs, found: Found)
    requires Good(fs) && IsPlace(p) && p.ino in fs.inodes && (fs', found) == Descend(fs, p)
    ensures Good(fs') && Extends(fs, fs', p)
    ensures found == Outcome(fs, p, Flags.Free(fs.bits), ZoneOf(fs', p))
    ensures found.Zone? ==> found.z != 0 && Flags.Free(fs'.bits) == Flags.Free(fs.bits) - Missing(fs, p)
    ensures found.Zone? && ZoneOf(fs, p) == 0 && IsData(p) ==> Contents(fs', p) == ZeroZone()
    ensures !found.Zone? ==> Flags.Free(fs'.bits) == 0 && ZoneOf(fs', p) == 0
    ensures !found.Zone? && Flags.Free(fs.bits) == 0 ==> fs' == fs
    decreases if p.Deep? then 2 else if p.Entry? then 1 else 0
  {
    if p.Slot? {
      var (fs1, z) := Ensure(fs, p);
      EnsureEffect(fs, p, fs1, z);
    } else {
      var (fs1, found1) := Descend(fs, ParentOf(p));
      DescendEffect(fs, ParentOf(p), fs1, found1);
      TableIsParentZone(fs, p);
      TableIsParentZone(fs1, p);
      assert Kept(fs, fs1, ParentOf(p), p) && Kept(fs, fs1, ParentOf(p), ParentOf(p));
      hide Extends, Good;
      if found1.Zone? {
        var (fs2, z) := Ensure(fs1, p);
        EnsureEffect(fs1, p, fs2, z);
        ExtendsTrans(fs, fs1, fs2, p);
      } else {
        ExtendsRefl(fs1, p);
        ExtendsTrans(fs, fs1, fs1, p);
        StraySame(fs, p, fs1, found1);
      }
    }
  }

  /** Block 0, and what it leads to, are as they were when the lookup began. */
  lemma StraySame(fs: Fs, p: Place, fs1: Fs, found1: Found)
    requires Good(fs) && IsPlace(p) && !p.Slot? && Extends(fs, fs1, ParentOf(p)) && !found1.Zone?
    requires found1 == Outcome(fs, ParentOf(p), Flags.Free(fs.bits), ZoneOf(fs1, ParentOf(p)))
    requires Flags.Free(fs.bits) == 0 ==> fs1 == fs
    ensures RawEntry(fs1.disk, if found1.Astray? then found1.z else 0, IndexOf(p))
            == StrayEntry(fs, p, Flags.Free(fs.bits))
  {
    var free := Flags.Free(fs.bits);
    if found1.Astray? {
      assert !(free >= Missing(fs, ParentOf(ParentOf(p))));
    }
  }

  // ----- data -----

  function WriteZone(fs: Fs, z: nat, off: nat, bytes: seq<byte>): Fs
    requires z in fs.disk && off + |bytes| <= |fs.disk[z]|
  {
    fs.(disk := fs.disk[z := Overwrite(fs.disk[z], off, bytes)])
  }

  /** Writing data moves no zone. */
  lemma {:induction false} WriteZoneSame(fs: Fs, p: Place, off: nat, bytes: seq<byte>, fs': Fs, q: Place)
    requires Good(fs) && IsPlace(p) && IsData(p) && ZoneOf(fs, p) in fs.disk && ZoneOf(fs, p) != 0
    requires off + |bytes| <= |fs.disk[ZoneOf(fs, p)]|
    requires fs' == WriteZone(fs, ZoneOf(fs, p), off, bytes) && IsPlace(q)
    ensures ZoneOf(fs', q) == ZoneOf(fs, q)
    ensures q != p && IsData(q) && ZoneOf(fs, q) != 0 ==> Contents(fs', q) == Contents(fs, q)
    decreases if q.Deep? then 2 else if q.Entry? then 1 else 0
  {
    if !q.Slot? {
      var parent := ParentOf(q);
      TableIsParentZone(fs, q);
      TableIsParentZone(fs', q);
      WriteZoneSame(fs, p, off, bytes, fs', parent);
      assert Sole(fs, p, parent);
    }
    assert Sole(fs, p, q);
  }

  lemma WriteZoneGood(fs: Fs, p: Place, off: nat, bytes: seq<byte>, fs': Fs)
    requires Good(fs) && IsPlace(p) && IsData(p) && ZoneOf(fs, p) in fs.disk && ZoneOf(fs, p) != 0
    requires off + |bytes| <= |fs.disk[ZoneOf(fs, p)]|
    requires fs' == WriteZone(fs, ZoneOf(fs, p), off, bytes)
    ensures Good(fs')
  {
    forall q
      ensures ZoneOk(fs', q)
    {
      if IsPlace(q) {
        WriteZoneSame(fs, p, off, bytes, fs', q);
        assert ZoneOk(fs, q);
      }
    }
    forall q, r
      ensures Sole(fs', q, r)
    {
      if IsPlace(q) && IsPlace(r) {
        WriteZoneSame(fs, p, off, bytes, fs', q);
        WriteZoneSame(fs, p, off, bytes, fs', r);
        assert Sole(fs, q, r);
      }
    }
    forall k
      ensures FreeOk(fs', k)
    {
      assert FreeOk(fs, k);
    }
  }
}
