/**
 * A mounted Minix file system: the loops of zones.h and minix.c over its bitmap, its blocks and its inodes.
 */
module MinixVolume {
  import opened Common
  import opened MinixFile
  import opened MinixTruncate
  import opened MinixZones
  import MinixSpace
  import Flags
  import MinixBitmap

  /** The place that the first tiers of a lookup lead to. */
  function TierPlace(ino: nat, tiers: seq<nat>, tier: nat): Place
    requires |tiers| == 3 && tier < 3
  {
    if tier == 0 then Slot(ino, tiers[0])
    else if tier == 1 then Entry(ino, tiers[0], tiers[1])
    else Deep(ino, tiers[1], tiers[2])
  }

  /** What a lookup has come to: the zone of its place, or a number picked up off the way to it. */
  function Named(lost: bool, zone: nat): Found {
    if !lost then Zone(zone) else if zone == 0 then Full else Astray(zone)
  }

  /** `w` bytes and what the loop would still do make up the whole. */
  ghost predicate Owed(goal: (Fs, nat, Ending), w: nat, fs: Fs, ino: nat, at: nat, rest: seq<byte>) {
    w <= goal.1 && Writes(fs, ino, at, rest, goal.0, goal.1 - w, goal.2)
  }

  /** The bytes read and those still to read make up the whole. */
  ghost predicate Unread(goal: seq<byte>, r: seq<byte>, fs: Fs, ino: nat, at: nat, left: nat) {
    goal == r + ReadFrom(fs, ino, at, left)
  }

  lemma ReadUnfold(goal: seq<byte>, r: seq<byte>, fs: Fs, ino: nat, at: nat, left: nat, zlen: nat, r': seq<byte>,
      at': nat, left': nat)
    requires Unread(goal, r, fs, ino, at, left) && Mapped(fs, ino, at / ZONE_SIZE)
    requires zlen == Min(ZONE_SIZE - at % ZONE_SIZE, left)
    requires var block := Contents(fs, PlaceOf(ino, at / ZONE_SIZE).value);
             IsZone(block) && r' == r + block[at % ZONE_SIZE..at % ZONE_SIZE + zlen]
    requires at' == at + zlen && left' == left - zlen
    ensures if left' > 0 then Unread(goal, r', fs, ino, at', left') && at' % ZONE_SIZE == 0
            && at' / ZONE_SIZE == at / ZONE_SIZE + 1 else goal == r'
  {
  }

  /** What is left to free, of `ps`, makes up the whole. */
  ghost predicate Unfreed(goal: seq<bool>, was: Fs, fs: Fs, ps: seq<Place>) {
    fs == was.(bits := fs.bits) && |fs.bits| == |was.bits| && goal == FreeZones(was, fs.bits, ps)
  }

  lemma FreeOne(goal: seq<bool>, was: Fs, fs: Fs, p: Place, ps: seq<Place>, rest: seq<Place>, fs': Fs)
    requires Unfreed(goal, was, fs, [p] + ps + rest) && fs' == fs.(bits := MinixBitmap.Cleared(fs.bits, FlagOf(was, p)))
    ensures Unfreed(goal, was, fs', ps + rest)
  {
    assert ([p] + ps + rest)[1..] == ps + rest;
  }

  lemma UnfreedSame(goal: seq<bool>, was: Fs, fs: Fs, ps: seq<Place>)
    requires Unfreed(goal, was, fs, ps)
    ensures fs.inodes == was.inodes && fs.disk == was.disk
  {
  }

  lemma NoneLeft(fs: Fs, rest: seq<Place>)
    ensures AllInside(fs, []) && [] + rest == rest
  {
  }

  lemma InsidePrefixed(fs: Fs, has: bool, p: Place, ps: seq<Place>)
    ensures AllInside(fs, Prefixed(has, p, ps)) <==> (has ==> Inside(fs, p)) && AllInside(fs, ps)
  {
    if has {
      assert [p] + ps == Prefixed(has, p, ps) && ([p] + ps)[0] == p;
      assert forall i :: 0 <= i < |ps| ==> ([p] + ps)[i + 1] == ps[i];
    }
  }

  lemma InsideConcat(fs: Fs, ps: seq<Place>, qs: seq<Place>)
    ensures AllInside(fs, ps + qs) <==> AllInside(fs, ps) && AllInside(fs, qs)
  {
    assert forall i :: 0 <= i < |ps| ==> (ps + qs)[i] == ps[i];
    assert forall i :: 0 <= i < |qs| ==> (ps + qs)[|ps| + i] == qs[i];
  }

  /** A zone is missing if a table on the way to it is. */
  lemma MissingTier(fs: Fs, ino: nat, path: seq<nat>, tier: nat, n: nat)
    requires |path| == 3 && tier < n <= 3 && ZoneOf(fs, TierPlace(ino, path, tier)) == 0
    requires 1 < n ==> TierPlace(ino, path, n - 2) == ParentOf(TierPlace(ino, path, n - 1))
    requires 2 < n ==> TierPlace(ino, path, 0) == ParentOf(TierPlace(ino, path, 1))
    requires IsPlace(TierPlace(ino, path, n - 1))
    ensures ZoneOf(fs, TierPlace(ino, path, n - 1)) == 0
  {
    if tier < n - 1 {
      TableIsParentZone(fs, TierPlace(ino, path, n - 1));
      if tier < n - 2 {
        TableIsParentZone(fs, TierPlace(ino, path, n - 2));
      }
    }
  }

  class MinixVolume {
    const first: nat
    const bitmap: MinixBitmap.Bitmap
    var disk: map<nat, seq<byte>>
    var inodes: map<nat, Inode>
    ghost var fs: Fs

    ghost predicate Valid()
      reads this, bitmap
    {
      fs == Fs(first, MinixBitmap.Flat(bitmap.blocks), disk, inodes)
    }

    constructor (first: nat, bitmap: MinixBitmap.Bitmap, disk: map<nat, seq<byte>>, inodes: map<nat, Inode>)
      ensures Valid() && fs == Fs(first, MinixBitmap.Flat(bitmap.blocks), disk, inodes)
    {
      this.first, this.bitmap, this.disk, this.inodes := first, bitmap, disk, inodes;
      fs := Fs(first, MinixBitmap.Flat(bitmap.blocks), disk, inodes);
    }

    /** minix_alloc_zone. */
    method NewZone() returns (z: nat)
      requires Valid() && first >= 1
      modifies this`disk, this`fs, bitmap
      ensures Valid() && (fs, z) == AllocZone(old(fs))
    {
      var bit := bitmap.BitAlloc();
      fs := fs.(bits := MinixBitmap.Flat(bitmap.blocks));
      if bit == 0 {
        return 0;
      }
      z := first + bit - 1;
      disk := disk[z := ZeroZone()];
      fs := fs.(disk := disk);
    }

    /** minix_free_zone: false if it writes outside the bitmap. */
    method FreeZone(z: nat) returns (inside: bool)
      requires Valid() && first <= z && z - first + 1 < |fs.bits|
      modifies this`fs, bitmap
      ensures inside <==> z - first + 1 < MinixBitmap.BITS_PER_ZONE
      ensures inside ==> Valid() && fs == old(fs).(bits := MinixBitmap.Cleared(old(fs).bits, z - first + 1))
    {
      MinixBitmap.FreeBitIff(fs.bits, z - first + 1);
      inside := bitmap.BitFree(z - first + 1);
      fs := fs.(bits := MinixBitmap.Flat(bitmap.blocks));
    }

    /** zone_calculate_tier. */
    static method CalculateTier(tiers: array<nat>, znum: nat, ghost ino: nat) returns (n: int)
      requires tiers.Length == 3
      modifies tiers
      ensures if znum < MAX_ZONES then 1 <= n <= 3 && PlaceOf(ino, znum) == Some(TierPlace(ino, tiers[..], n - 1))
              else n == -1
      ensures 1 < n ==> TierPlace(ino, tiers[..], n - 2) == ParentOf(TierPlace(ino, tiers[..], n - 1))
      ensures 2 < n ==> TierPlace(ino, tiers[..], 0) == ParentOf(TierPlace(ino, tiers[..], 1))
    {
      if znum < DIRECT {
        tiers[0] := znum;
        return 1;
      }
      var rest := znum - DIRECT;
      tiers[0] := DIRECT;
      if rest < PER_ZONE {
        tiers[1] := rest;
        return 2;
      }
      rest := rest - PER_ZONE;
      tiers[0] := tiers[0] + 1;
      if rest < PER_ZONE * PER_ZONE {
        tiers[1] := rest / PER_ZONE;
        tiers[2] := rest % PER_ZONE;
        return 3;
      }
      return -1;
    }

    /** One tier of zone_lookup when creating: fill the empty place in the inode, or in the table that is block
        `table`. */
    method FillPlace(ino: nat, tier: nat, index: nat, table: nat, ghost p: Place) returns (z: nat)
      requires Valid() && Good(fs) && ino in inodes && IsPlace(p) && p.ino == ino && ZoneOf(fs, p) == 0
      requires index == IndexOf(p)
      requires p.Slot? <==> tier == 0
      requires tier > 0 ==> table != 0 && table == ZoneOf(fs, ParentOf(p))
      modifies this, bitmap
      ensures Valid() && Good(fs) && (fs, z) == Ensure(old(fs), p)
    {
      ghost var was := fs;
      z := NewZone();
      AllocZoneFresh(was, fs, z);
      if z != 0 {
        if tier == 0 {
          inodes := inodes[ino := inodes[ino].(zones := inodes[ino].zones[index := z])];
          fs := fs.(inodes := inodes);
        } else {
          TableIsParentZone(was, p);
          FilledParts(was, p, Ensure(was, p).0, z);
          disk := disk[table := TableSet(disk[table], index, z)];
          fs := fs.(disk := disk);
        }
        FilledGood(was, p, fs, z);
      }
    }

    /** One tier of zone_lookup. */
    method LookupTier(ino: nat, tier: nat, index: nat, table: nat, create: bool, ghost p: Place) returns (zone: nat)
      requires Valid() && (create ==> Good(fs)) && ino in inodes && IsPlace(p) && p.ino == ino
      requires index == IndexOf(p) && (p.Slot? <==> tier == 0)
      requires tier > 0 ==> table != 0 && table == ZoneOf(fs, ParentOf(p))
      modifies this, bitmap
      ensures Valid() && (create ==> Good(fs)) && ino in inodes && (zone != 0 ==> zone == ZoneOf(fs, p))
      ensures if create then (fs, zone) == Ensure(old(fs), p) else fs == old(fs) && zone == ZoneOf(fs, p)
    {
      if tier > 0 {
        TableIsParentZone(fs, p);
      }
      zone := if tier == 0 then SlotAt(inodes, ino, index) else TableAt(disk, table, index);
      if zone == 0 && create {
        ghost var was := fs;
        zone := FillPlace(ino, tier, index, table, p);
        EnsureEffect(was, p, fs, zone);
      }
    }

    /** One tier of zone_lookup when a table on the way could not be allocated, in block `table` instead. */
    method StrayTier(index: nat, table: nat) returns (zone: nat)
      requires Valid() && Good(fs) && Flags.Free(fs.bits) == 0
      modifies this, bitmap
      ensures Valid() && fs == old(fs) && zone == RawEntry(fs.disk, table, index)
    {
      zone := RawEntry(disk, table, index);
      if zone == 0 {
        ghost var was := fs;
        zone := NewZone();
        AllocZoneFresh(was, fs, zone);
      }
    }

    /** A tier of zone_lookup when creating, on the way to its place or off it. */
    method CreateTier(ino: nat, tier: nat, index: nat, table: nat, lost: bool, ghost was: Fs, ghost p: Place)
      returns (zone: nat, lost': bool)
      requires Valid() && Good(fs) && ino in inodes && Good(was) && ino in was.inodes
      requires IsPlace(p) && p.ino == ino && index == IndexOf(p) && (p.Slot? <==> tier == 0)
      requires tier == 0 ==> fs == was && !lost
      requires tier > 0 ==> (fs, Named(lost, table)) == Descend(was, ParentOf(p))
      modifies this, bitmap
      ensures Valid() && Good(fs) && ino in inodes
      ensures (fs, Named(lost', zone)) == Descend(was, p)
    {
      if tier > 0 {
        DescendEffect(was, ParentOf(p), fs, Named(lost, table));
      }
      if lost {
        zone := StrayTier(index, table);
        lost' := true;
      } else {
        zone := LookupTier(ino, tier, index, table, true, p);
        lost' := zone == 0;
      }
      DescendEffect(was, p, fs, Named(lost', zone));
    }

    /** zone_lookup when creating. */
    method CreateZone(ino: nat, znum: nat) returns (found: Found)
      requires Valid() && Good(fs) && ino in inodes
      modifies this, bitmap
      ensures Valid() && Good(fs) && ino in inodes && (fs, found) == Lookup(old(fs), ino, znum)
    {
      var tiers := new nat[3];
      var n := CalculateTier(tiers, znum, ino);
      if n < 0 {
        return Full;
      }
      ghost var was, path := fs, tiers[..];
      var zone: nat, tier: nat, lost := 0, 0, false;
      while tier < n
        invariant 0 <= tier <= n && tiers[..] == path && ino in inodes && Valid() && Good(fs)
        invariant tier == 0 ==> fs == was && !lost
        invariant tier > 0 ==> (fs, Named(lost, zone)) == Descend(was, TierPlace(ino, path, tier - 1))
      {
        zone, lost := CreateTier(ino, tier, tiers[tier], zone, lost, was, TierPlace(ino, path, tier));
        tier := tier + 1;
      }
      return Named(lost, zone);
    }

    /** zone_lookup when not creating: nothing changes. */
    method FindZone(ino: nat, znum: nat) returns (found: Found)
      requires Valid() && ino in inodes
      modifies this, bitmap
      ensures Valid() && ino in inodes && fs == old(fs)
      ensures found == if Mapped(fs, ino, znum) then Zone(ZoneOf(fs, PlaceOf(ino, znum).value)) else Full
    {
      var tiers := new nat[3];
      var n := CalculateTier(tiers, znum, ino);
      if n < 0 {
        return Full;
      }
      ghost var was, path := fs, tiers[..];
      var zone: nat, tier: nat := 0, 0;
      while tier < n
        invariant 0 <= tier <= n && tiers[..] == path && ino in inodes && Valid() && fs == was
        invariant tier > 0 ==> zone != 0 && zone == ZoneOf(fs, TierPlace(ino, path, tier - 1))
      {
        zone := LookupTier(ino, tier, tiers[tier], zone, false, TierPlace(ino, path, tier));
        if zone == 0 {
          MissingTier(fs, ino, path, tier, n);
          return Full;
        }
        tier := tier + 1;
      }
      return Zone(zone);
    }

    /** One round of minix_write's loop, in zone `znum` from byte `zpos`. */
    method WriteSomeBytes(ino: nat, znum: nat, zpos: nat, rest: seq<byte>, ghost at: nat)
        returns (n: nat, ending: Ending)
      requires Valid() && Good(fs) && ino in inodes && znum == at / ZONE_SIZE && zpos == at % ZONE_SIZE
      modifies this, bitmap
      ensures Valid() && Good(fs) && ino in inodes && n <= |rest|
      ensures (fs, n, ending) == WriteRound(old(fs), ino, at, rest)
    {
      ghost var was := fs;
      ghost var (fs1, n1, ending1) := WriteRound(was, ino, at, rest);
      RoundEffect(was, ino, at, rest, fs1, n1, ending1);
      var found := CreateZone(ino, znum);
      LookupKeeps(was, ino, znum, fs, found);
      match found {
        case Full =>
          return 0, NoSpace;
        case Astray(z) =>
          return 0, if z in disk then Lost else IoError;
        case Zone(z) =>
          assert ZoneOk(fs, PlaceOf(ino, znum).value);
          n := ZONE_SIZE - zpos;
          if n > |rest| {
            n := |rest|;
          }
          disk := disk[z := Overwrite(disk[z], zpos, rest[..n])];
          fs := fs.(disk := disk);
          return n, Complete;
      }
    }

    /** ... and what that leaves to do of the whole. */
    method WriteOn(ino: nat, znum: nat, zpos: nat, rest: seq<byte>, w: nat, ghost at: nat,
        ghost goal: (Fs, nat, Ending)) returns (rest': seq<byte>, w': nat, ending: Ending, more: bool, ghost at': nat)
      requires Valid() && Good(fs) && ino in inodes && znum == at / ZONE_SIZE && zpos == at % ZONE_SIZE
      requires Owed(goal, w, fs, ino, at, rest)
      modifies this, bitmap
      ensures Valid() && Good(fs) && ino in inodes && |rest'| <= |rest|
      ensures more ==>
              |rest'| < |rest| && znum + 1 == at' / ZONE_SIZE && 0 == at' % ZONE_SIZE
              && Owed(goal, w', fs, ino, at', rest')
      ensures !more ==> goal == (fs, w', ending)
    {
      ghost var was := fs;
      var n;
      n, ending := WriteSomeBytes(ino, znum, zpos, rest, at);
      hide WriteRound, Good, Writes;
      Unrolled(was, ino, at, rest, fs, n, ending, goal.0, goal.1 - w, goal.2);
      more := ending.Complete? && n < |rest|;
      if more {
        MinixSpace.RoundAdvances(was, ino, at, rest, n);
      }
      rest', w', at' := rest[n..], w + n, at + n;
    }

    method WriteBytes(ino: nat, pos: nat, data: seq<byte>) returns (w: nat, ending: Ending)
      requires Valid() && Good(fs) && ino in inodes
      modifies this, bitmap
      ensures Valid() && ino in inodes && (fs, w, ending) == WriteFrom(old(fs), ino, pos, data)
    {
      var znum, zpos, rest, more := pos / ZONE_SIZE, pos % ZONE_SIZE, data, true;
      ghost var goal, at: nat := WriteFrom(fs, ino, pos, data), pos;
      w, ending := 0, Complete;
      while more
        invariant Valid() && Good(fs) && ino in inodes
        invariant more ==> znum == at / ZONE_SIZE && zpos == at % ZONE_SIZE && Owed(goal, w, fs, ino, at, rest)
        invariant !more ==> goal == (fs, w, ending)
        decreases |rest|, more
      {
        rest, w, ending, more, at := WriteOn(ino, znum, zpos, rest, w, at, goal);
        znum, zpos := znum + 1, 0;
      }
    }

    /** minix_write. */
    method WriteFile(file: OpenFile, data: seq<byte>) returns (w: nat, ending: Ending)
      requires Valid() && Good(fs) && file.ino in inodes
      modifies this, bitmap, file
      ensures Valid() && (fs, w, ending) == Write(old(fs), file.ino, old(file.position), data)
      ensures file.position == old(file.position) + w
    {
      var ino, pos := file.ino, file.position;
      w, ending := WriteBytes(ino, pos, data);
      file.position := pos + w;
      if pos + w > inodes[ino].size {
        inodes := inodes[ino := inodes[ino].(size := pos + w)];
        fs := fs.(inodes := inodes);
      }
    }

    /** One round of minix_read's loop. */
    method ReadOn(ino: nat, znum: nat, zpos: nat, left: nat, r: seq<byte>, ghost at: nat, ghost goal: seq<byte>)
        returns (left': nat, r': seq<byte>, more: bool, ghost at': nat)
      requires Valid() && Good(fs) && ino in inodes && znum == at / ZONE_SIZE && zpos == at % ZONE_SIZE
      requires Unread(goal, r, fs, ino, at, left)
      modifies this, bitmap
      ensures Valid() && fs == old(fs) && left' <= left
      ensures more ==>
              left' < left && znum + 1 == at' / ZONE_SIZE && 0 == at' % ZONE_SIZE
              && Unread(goal, r', fs, ino, at', left')
      ensures !more ==> goal == r'
    {
      left', r', at' := left, r, at;
      var found := FindZone(ino, znum);
      if !found.Zone? {
        return left', r', false, at';
      }
      assert ZoneOk(fs, PlaceOf(ino, znum).value);
      var zlen := ZONE_SIZE - zpos;
      if zlen > left {
        zlen := left;
      }
      r' := r + disk[found.z][zpos..zpos + zlen];
      left', at' := left - zlen, at + zlen;
      ReadUnfold(goal, r, fs, ino, at, left, zlen, r', at', left');
      more := left' > 0;
    }

    method ReadBytes(ino: nat, pos: nat, n: nat) returns (r: seq<byte>)
      requires Valid() && Good(fs) && ino in inodes
      modifies this, bitmap
      ensures Valid() && fs == old(fs) && r == ReadFrom(fs, ino, pos, n)
    {
      var znum, zpos, left, more := pos / ZONE_SIZE, pos % ZONE_SIZE, n, true;
      ghost var goal, at: nat := ReadFrom(fs, ino, pos, n), pos;
      r := [];
      assert Unread(goal, r, fs, ino, at, left);
      while more
        invariant Valid() && fs == old(fs)
        invariant more ==>
                  left >= 0 && znum == at / ZONE_SIZE && zpos == at % ZONE_SIZE && Unread(goal, r, fs, ino, at, left)
        invariant !more ==> goal == r
        decreases left, more
      {
        left, r, more, at := ReadOn(ino, znum, zpos, left, r, at, goal);
        znum, zpos := znum + 1, 0;
      }
    }

    method FreeAt(z: nat, ghost was: Fs, ghost p: Place, ghost ps: seq<Place>, ghost rest: seq<Place>,
        ghost goal: seq<bool>)
      returns (inside: bool)
      requires Valid() && Good(was) && IsPlace(p) && z == ZoneOf(was, p) && z != 0
      requires Unfreed(goal, was, fs, [p] + ps + rest)
      modifies this`fs, bitmap
      ensures inside <==> Inside(was, p)
      ensures inside ==> Valid() && Unfreed(goal, was, fs, ps + rest)
    {
      assert ZoneOk(was, p);
      ghost var before := fs;
      inside := FreeZone(z);
      if inside {
        FreeOne(goal, was, before, p, ps, rest, fs);
      }
    }

    /** The zones of a file are still there to be found when some have been freed. */
    method StillAt(ino: nat, znum: nat, ghost was: Fs, ghost ps: seq<Place>, ghost goal: seq<bool>)
        returns (found: Found)
      requires Valid() && ino in inodes && Unfreed(goal, was, fs, ps)
      modifies this, bitmap
      ensures Valid() && ino in inodes && Unfreed(goal, was, fs, ps)
      ensures found == if Mapped(was, ino, znum) then Zone(ZoneOf(was, PlaceOf(ino, znum).value)) else Full
    {
      assert Mapped(was, ino, znum) == Mapped(fs, ino, znum);
      assert Mapped(was, ino, znum) ==> ZoneOf(was, PlaceOf(ino, znum).value) == ZoneOf(fs, PlaceOf(ino, znum).value);
      found := FindZone(ino, znum);
    }

    /** One round of zone_free_all's first loop. */
    method FreeNext(ino: nat, znum: nat, z: nat, ghost was: Fs, ghost ps: seq<Place>, ghost rest: seq<Place>,
        ghost goal: seq<bool>)
      returns (inside: bool, found: Found, ghost ps': seq<Place>)
      requires Valid() && Good(was) && ino in inodes && Mapped(was, ino, znum)
      requires z == ZoneOf(was, PlaceOf(ino, znum).value)
      requires ps == DataPlaces(was, ino, znum) && Unfreed(goal, was, fs, ps + rest)
      modifies this, bitmap
      ensures ps' == DataPlaces(was, ino, znum + 1)
      ensures AllInside(was, ps) <==> inside && AllInside(was, ps')
      ensures inside ==> Valid() && ino in inodes && Unfreed(goal, was, fs, ps' + rest)
      ensures inside ==> found == if Mapped(was, ino, znum + 1) then Zone(ZoneOf(was, PlaceOf(ino, znum + 1).value))
              else Full
    {
      ps' := DataPlaces(was, ino, znum + 1);
      ghost var p := PlaceOf(ino, znum).value;
      InsidePrefixed(was, true, p, ps');
      inside := FreeAt(z, was, p, ps', rest, goal);
      if !inside {
        return false, Full, ps';
      }
      found := StillAt(ino, znum + 1, was, ps' + rest, goal);
    }

    /** zone_free_all's first loop. */
    method FreeData(ino: nat, ghost was: Fs, ghost rest: seq<Place>, ghost goal: seq<bool>) returns (inside: bool)
      requires Valid() && Good(was) && ino in inodes && Unfreed(goal, was, fs, DataPlaces(was, ino, 0) + rest)
      modifies this, bitmap
      ensures inside <==> AllInside(was, DataPlaces(was, ino, 0))
      ensures inside ==> Valid() && ino in inodes && Unfreed(goal, was, fs, rest)
    {
      hide Unfreed, Good;
      var znum: nat := 0;
      ghost var ps := DataPlaces(was, ino, 0);
      inside := true;
      var found := StillAt(ino, znum, was, ps + rest, goal);
      while found.Zone?
        invariant Valid() && ino in inodes && ps == DataPlaces(was, ino, znum) && Unfreed(goal, was, fs, ps + rest)
        invariant found == if Mapped(was, ino, znum) then Zone(ZoneOf(was, PlaceOf(ino, znum).value)) else Full
        invariant AllInside(was, DataPlaces(was, ino, 0)) <==> AllInside(was, ps)
        decreases MAX_ZONES - znum
      {
        inside, found, ps := FreeNext(ino, znum, found.z, was, ps, rest, goal);
        if !inside {
          return false;
        }
        znum := znum + 1;
      }
      assert ps + rest == rest;
      return true;
    }

    /** A round of the loops over tables: nothing to free if there is no zone. */
    method FreeIf(z: nat, ghost was: Fs, ghost p: Place, ghost ps: seq<Place>, ghost rest: seq<Place>,
        ghost goal: seq<bool>)
      returns (inside: bool)
      requires Valid() && Good(was) && IsPlace(p) && z == ZoneOf(was, p)
      requires Unfreed(goal, was, fs, Prefixed(z != 0, p, ps) + rest)
      modifies this`fs, bitmap
      ensures AllInside(was, Prefixed(z != 0, p, ps)) <==> inside && AllInside(was, ps)
      ensures inside ==> Valid() && Unfreed(goal, was, fs, ps + rest)
    {
      InsidePrefixed(was, z != 0, p, ps);
      inside := true;
      if z != 0 {
        inside := FreeAt(z, was, p, ps, rest, goal);
      }
    }

    method FreeTable(ino: nat, table: nat, b: nat, ghost was: Fs, ghost ps: seq<Place>, ghost rest: seq<Place>,
        ghost goal: seq<bool>)
      returns (inside: bool, ghost ps': seq<Place>)
      requires Valid() && Good(was) && b < PER_ZONE && table == SlotAt(was.inodes, ino, DIRECT + 1)
      requires ps == TablePlaces(was, ino, b) && Unfreed(goal, was, fs, ps + rest)
      modifies this`fs, bitmap
      ensures ps' == TablePlaces(was, ino, b + 1) && (AllInside(was, ps) <==> inside && AllInside(was, ps'))
      ensures inside ==> Valid() && Unfreed(goal, was, fs, ps' + rest)
    {
      ps' := TablePlaces(was, ino, b + 1);
      inside := FreeIf(TableAt(disk, table, b), was, Entry(ino, DIRECT + 1, b), ps', rest, goal);
    }

    /** ... its second, over the tables in the last slot's table, ... */
    method FreeTables(ino: nat, ghost was: Fs, ghost rest: seq<Place>, ghost goal: seq<bool>) returns (inside: bool)
      requires Valid() && Good(was) && ino in inodes && Unfreed(goal, was, fs, TablePlaces(was, ino, 0) + rest)
      modifies this`fs, bitmap
      ensures inside <==> AllInside(was, TablePlaces(was, ino, 0))
      ensures inside ==> Valid() && ino in inodes && Unfreed(goal, was, fs, rest)
    {
      hide AllInside, Unfreed, Good;
      var table := SlotAt(inodes, ino, DIRECT + 1);
      ghost var ps := TablePlaces(was, ino, 0);
      assert table == SlotAt(was.inodes, ino, DIRECT + 1) by {
        UnfreedSame(goal, was, fs, ps + rest);
      }
      for b := 0 to PER_ZONE
        invariant Valid() && ps == TablePlaces(was, ino, b) && Unfreed(goal, was, fs, ps + rest)
        invariant AllInside(was, TablePlaces(was, ino, 0)) <==> AllInside(was, ps)
      {
        inside, ps := FreeTable(ino, table, b, was, ps, rest, goal);
        if !inside {
          return false;
        }
      }
      NoneLeft(was, rest);
      assert ps == [];
      return true;
    }

    /** ... and its third, over the tables in the inode. */
    method FreeSlots(ino: nat, ghost was: Fs, ghost goal: seq<bool>) returns (inside: bool)
      requires Valid() && Good(was) && ino in inodes && Unfreed(goal, was, fs, SlotPlaces(was, ino, DIRECT) + [])
      modifies this`fs, bitmap
      ensures inside <==> AllInside(was, SlotPlaces(was, ino, DIRECT))
      ensures inside ==> Valid() && ino in inodes && Unfreed(goal, was, fs, [])
    {
      hide AllInside, Unfreed, Good;
      ghost var ps := SlotPlaces(was, ino, DIRECT);
      for a := DIRECT to SLOTS
        invariant Valid() && ps == SlotPlaces(was, ino, a) && Unfreed(goal, was, fs, ps + [])
        invariant AllInside(was, SlotPlaces(was, ino, DIRECT)) <==> AllInside(was, ps)
      {
        ghost var p := Slot(ino, a);
        UnfreedSame(goal, was, fs, ps + []);
        ps := SlotPlaces(was, ino, a + 1);
        inside := FreeIf(SlotAt(inodes, ino, a), was, p, ps, [], goal);
        if !inside {
          return false;
        }
      }
      NoneLeft(was, []);
      assert ps == [];
      return true;
    }

    /** zone_free_all, up to the inode: false if a write went outside the bitmap. */
    method FreeAll(ino: nat) returns (inside: bool)
      requires Valid() && Good(fs) && ino in inodes
      modifies this, bitmap
      ensures inside <==> AllInside(old(fs), FreedPlaces(old(fs), ino))
      ensures inside ==> Valid() && ino in inodes
      ensures inside ==> fs == old(fs).(bits := FreeZones(old(fs), old(fs).bits, FreedPlaces(old(fs), ino)))
    {
      ghost var was, goal := fs, FreeZones(fs, fs.bits, FreedPlaces(fs, ino));
      ghost var d, t, l := DataPlaces(fs, ino, 0), TablePlaces(fs, ino, 0), SlotPlaces(fs, ino, DIRECT);
      assert FreedPlaces(fs, ino) == d + (t + (l + []));
      InsideConcat(fs, d + t, l);
      InsideConcat(fs, d, t);
      inside := FreeData(ino, was, t + (l + []), goal);
      if !inside {
        return;
      }
      inside := FreeTables(ino, was, l + [], goal);
      if !inside {
        return;
      }
      inside := FreeSlots(ino, was, goal);
    }

    /** minix_truncate: false if a write went outside the bitmap, after which nothing is known. */
    method TruncateFile(ino: nat) returns (inside: bool)
      requires Valid() && Good(fs) && ino in inodes
      modifies this, bitmap
      ensures inside <==> Truncate(old(fs), ino).Some?
      ensures inside ==> Valid() && Truncate(old(fs), ino) == Some(fs)
    {
      inside := FreeAll(ino);
      if inside {
        inodes := inodes[ino := Inode(seq(SLOTS, _ => 0), 0)];
        fs := fs.(inodes := inodes);
      }
    }

    /** minix_read. */
    method ReadFile(file: OpenFile, n: nat) returns (r: seq<byte>)
      requires Valid() && Good(fs) && file.ino in inodes
      modifies this, bitmap, file
      ensures Valid() && fs == old(fs) && r == Read(fs, file.ino, old(file.position), n)
      ensures file.position == old(file.position) + |r|
    {
      var nbytes, left := n, (inodes[file.ino].size - file.position) % WORD32;
      if nbytes > left {
        nbytes := left;
      }
      r := ReadBytes(file.ino, file.position, nbytes);
      file.position := file.position + |r|;
    }

    /** minix_seek, of a 32-bit unsigned offset. */
    method SeekFile(file: OpenFile, offset: nat, whence: Whence) returns (r: Option<nat>)
      requires file.ino in inodes
      modifies file
      ensures r == SeekTarget(inodes[file.ino].size, old(file.position), offset, whence)
      ensures file.position == if r.Some? then r.value else old(file.position)
    {
      var position := offset;
      match whence {
        case Set =>
        case Cur =>
          position := (file.position + offset) % WORD32;
        case End =>
          position := (inodes[file.ino].size + offset) % WORD32;
        case Other =>
          return None;
      }
      if position > inodes[file.ino].size {
        position := inodes[file.ino].size;
      }
      file.position := position;
      return Some(position);
    }
  }

  /** struct vfile. */
  class OpenFile {
    const ino: nat
    var position: nat

    constructor (ino: nat)
      ensures this.ino == ino && position == 0
    {
      this.ino, position := ino, 0;
    }
  }
}
