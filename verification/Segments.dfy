/**
 * The segment list of an address space (map.c, map.h): half-open ranges of 32-bit addresses, in
 * order and apart, where an end of 0 stands for the top of the address space.
 */
module Segments {
  import opened Common

  datatype Segment = Segment(start: nat, end: nat, growsDown: bool, offset: nat) {
    function Limit(): nat {
      if end == 0 then WORD32 else end
    }

    predicate Ok() {
      start <= Limit() && start < WORD32 && end < WORD32
    }

    predicate Covers(x: nat) {
      start <= x < Limit()
    }

    /** Where in its object the segment finds the byte at `x`. */
    function Backing(x: nat): int {
      offset + x - start
    }
  }

  predicate Covered(segs: seq<Segment>, x: nat) {
    exists i :: 0 <= i < |segs| && segs[i].Covers(x)
  }

  /** In order of address, and no two overlap. */
  ghost predicate Sorted(segs: seq<Segment>) {
    && (forall i :: 0 <= i < |segs| ==> segs[i].Ok())
    && (forall i, j :: 0 <= i < j < |segs| ==> segs[i].Limit() <= segs[j].start)
  }

  // ----- unmap -----

  /** memory_map_unmap, one segment: what it leaves of it, for the range from `start` to `end`. */
  function Unmapped(s: Segment, start: nat, end: nat): seq<Segment> {
    if start <= s.start <= end then
      if start <= s.end <= end then [] else [s.(start := end)]
    else if start <= s.end <= end then [s.(end := start)]
    else if s.start <= start <= s.end then
            [s.(end := start), s.(start := end, offset := (s.offset + end - s.start) % WORD32)]
    else [s]
  }

  /** What unmapping [start, start + length) is to leave of a segment. */
  ghost predicate Removed(s: Segment, start: nat, length: nat, r: seq<Segment>) {
    Sorted(r) && forall x :: 0 <= x < WORD32 ==> (Covered(r, x) <==> s.Covers(x) && !(start <= x < start + length))
  }

  /** Where the comparisons of memory_map_unmap come out right although the segment, or the range, may reach the
      top of the address space. */
  predicate Sound(s: Segment, start: nat, end: nat) {
    if end == 0 then if start == 0 then s.end != 0 || s.start != 0
       else s.end != 0 && (s.end < start || (s.start == s.end && s.end != start))
    else s.end != 0 || start == end || s.start > end || (start > 0 && s.start >= start)
  }

  lemma CoveredTwo(r: seq<Segment>, x: nat)
    requires |r| <= 2
    ensures Covered(r, x) <==> (|r| > 0 && r[0].Covers(x)) || (|r| == 2 && r[1].Covers(x))
  {
  }

  lemma SortedTwo(r: seq<Segment>)
    ensures Sorted(r) && |r| == 2 ==> r[0].Limit() <= r[1].start
  {
  }

  lemma SoundRemoves(s: Segment, start: nat, length: nat)
    requires s.Ok() && start < WORD32 && length < WORD32 && start + length <= WORD32
    requires Sound(s, start, (start + length) % WORD32)
    ensures Removed(s, start, length, Unmapped(s, start, (start + length) % WORD32))
  {
    var r := Unmapped(s, start, (start + length) % WORD32);
    forall x | 0 <= x < WORD32
      ensures Covered(r, x) <==> s.Covers(x) && !(start <= x < start + length)
    {
      CoveredTwo(r, x);
    }
  }

  lemma UnsoundMisses(s: Segment, start: nat, length: nat)
    requires s.Ok() && start < WORD32 && length < WORD32 && start + length <= WORD32
    requires !Sound(s, start, (start + length) % WORD32)
    ensures !Removed(s, start, length, Unmapped(s, start, (start + length) % WORD32))
  {
    var end := (start + length) % WORD32;
    var r := Unmapped(s, start, end);
    var x: nat := if end == 0 then if start == 0 then 0 else if s.start <= start <= s.end then s.end - 1
      else if s.start < start then start else s.start
             else if start == 0 then end else start;
    CoveredTwo(r, x);
    SortedTwo(r);
    assert Sorted(r) ==> Covered(r, x) != (s.Covers(x) && !(start <= x < start + length));
  }

  /** Unmapping removes exactly the range from a segment if and only if it is sound. */
  lemma UnmapExactIff(s: Segment, start: nat, length: nat)
    requires s.Ok() && start < WORD32 && length < WORD32 && start + length <= WORD32
    ensures Removed(s, start, length, Unmapped(s, start, (start + length) % WORD32)) <==>
            Sound(s, start, (start + length) % WORD32)
  {
    if Sound(s, start, (start + length) % WORD32) {
      SoundRemoves(s, start, length);
    } else {
      UnsoundMisses(s, start, length);
    }
  }

  /** Pieces in order are pieces of the segment. */
  lemma PiecesWithin(s: Segment, start: nat, end: nat, i: nat)
    requires s.Ok() && start < WORD32 && end < WORD32 && Sorted(Unmapped(s, start, end))
    requires i < |Unmapped(s, start, end)|
    ensures var piece := Unmapped(s, start, end)[i]; s.start <= piece.start && piece.Limit() <= s.Limit()
  {
    var r := Unmapped(s, start, end);
    assert |r| == 2 ==> r[0].Limit() <= r[1].start;
  }

  /** memory_map_unmap: the list with the range taken out of each segment in turn. */
  function UnmapAll(segs: seq<Segment>, start: nat, end: nat): seq<Segment> {
    if segs == [] then [] else Unmapped(segs[0], start, end) + UnmapAll(segs[1..], start, end)
  }

  lemma CoveredConcat(a: seq<Segment>, b: seq<Segment>, x: nat)
    ensures Covered(a + b, x) <==> Covered(a, x) || Covered(b, x)
  {
    if Covered(a, x) {
      var i :| 0 <= i < |a| && a[i].Covers(x);
      assert (a + b)[i].Covers(x);
    }
    if Covered(b, x) {
      var i :| 0 <= i < |b| && b[i].Covers(x);
      assert (a + b)[|a| + i].Covers(x);
    }
    if Covered(a + b, x) {
      var i :| 0 <= i < |a + b| && (a + b)[i].Covers(x);
      assert (i < |a| && a[i].Covers(x)) || (i >= |a| && b[i - |a|].Covers(x));
    }
  }

  lemma SortedConcat(a: seq<Segment>, b: seq<Segment>)
    ensures Sorted(a + b) ==> Sorted(a) && Sorted(b)
    ensures Sorted(a) && Sorted(b) && (forall i, j :: 0 <= i < |a| && 0 <= j < |b| ==> a[i].Limit() <= b[j].start) ==>
            Sorted(a + b)
  {
    if Sorted(a + b) {
      assert forall i :: 0 <= i < |a| ==> (a + b)[i] == a[i];
      assert forall i :: 0 <= i < |b| ==> (a + b)[|a| + i] == b[i];
    }
  }

  /** The list after an unmap is that of the pieces of each segment. */
  lemma {:induction false} UnmapAllCovers(segs: seq<Segment>, start: nat, end: nat, x: nat)
    ensures Covered(UnmapAll(segs, start, end), x) <==>
            exists i :: 0 <= i < |segs| && Covered(Unmapped(segs[i], start, end), x)
  {
    if segs != [] {
      UnmapAllCovers(segs[1..], start, end, x);
      CoveredConcat(Unmapped(segs[0], start, end), UnmapAll(segs[1..], start, end), x);
      assert forall i :: 0 < i < |segs| ==> segs[1..][i - 1] == segs[i];
      assert forall i :: 0 <= i < |segs[1..]| ==> segs[1..][i] == segs[i + 1];
    }
  }

  lemma {:induction false} UnmapAllSorted(segs: seq<Segment>, start: nat, end: nat)
    requires Sorted(segs) && start < WORD32 && end < WORD32
    ensures Sorted(UnmapAll(segs, start, end)) <==>
            forall i :: 0 <= i < |segs| ==> Sorted(Unmapped(segs[i], start, end))
  {
    if segs != [] {
      var a, b := Unmapped(segs[0], start, end), UnmapAll(segs[1..], start, end);
      UnmapAllSorted(segs[1..], start, end);
      SortedConcat(a, b);
      assert forall i :: 0 < i < |segs| ==> segs[1..][i - 1] == segs[i];
      if forall i :: 0 <= i < |segs| ==> Sorted(Unmapped(segs[i], start, end)) {
        forall i, j | 0 <= i < |a| && 0 <= j < |b|
          ensures a[i].Limit() <= b[j].start
        {
          PiecesWithin(segs[0], start, end, i);
          PieceAfter(segs[1..], start, end, j, segs[0].Limit());
        }
      }
    }
  }

  /** No piece starts before the list does. */
  lemma {:induction false} PieceAfter(segs: seq<Segment>, start: nat, end: nat, j: nat, low: nat)
    requires Sorted(segs) && start < WORD32 && end < WORD32
    requires forall i :: 0 <= i < |segs| ==> Sorted(Unmapped(segs[i], start, end)) && low <= segs[i].start
    requires j < |UnmapAll(segs, start, end)|
    ensures low <= UnmapAll(segs, start, end)[j].start
  {
    var a := Unmapped(segs[0], start, end);
    if j < |a| {
      PiecesWithin(segs[0], start, end, j);
    } else {
      assert forall i :: 0 < i < |segs| ==> segs[1..][i - 1] == segs[i];
      PieceAfter(segs[1..], start, end, j - |a|, low);
    }
  }

  /** What unmapping [start, start + length) is to leave of the list. */
  ghost predicate RemovedAll(segs: seq<Segment>, start: nat, length: nat, r: seq<Segment>) {
    Sorted(r) && forall x :: 0 <= x < WORD32 ==> (Covered(r, x) <==> Covered(segs, x) && !(start <= x < start + length))
  }

  lemma PieceCovers(s: Segment, start: nat, end: nat, x: nat)
    requires s.Ok() && start < WORD32 && end < WORD32 && Sorted(Unmapped(s, start, end))
    ensures Covered(Unmapped(s, start, end), x) ==> s.Covers(x)
  {
    if Covered(Unmapped(s, start, end), x) {
      var i :| 0 <= i < |Unmapped(s, start, end)| && Unmapped(s, start, end)[i].Covers(x);
      PiecesWithin(s, start, end, i);
    }
  }

  /** If every segment loses exactly the range, so does the list, ... */
  lemma EachRemoved(segs: seq<Segment>, start: nat, length: nat, end: nat)
    requires Sorted(segs) && start < WORD32 && end < WORD32
    requires forall i :: 0 <= i < |segs| ==> Removed(segs[i], start, length, Unmapped(segs[i], start, end))
    ensures RemovedAll(segs, start, length, UnmapAll(segs, start, end))
  {
    var r := UnmapAll(segs, start, end);
    UnmapAllSorted(segs, start, end);
    forall x | 0 <= x < WORD32
      ensures Covered(r, x) <==> Covered(segs, x) && !(start <= x < start + length)
    {
      UnmapAllCovers(segs, start, end, x);
    }
  }

  /** ... and only then. */
  lemma RemovedEach(segs: seq<Segment>, start: nat, length: nat, end: nat, i: nat)
    requires Sorted(segs) && start < WORD32 && end < WORD32 && i < |segs|
    requires RemovedAll(segs, start, length, UnmapAll(segs, start, end))
    ensures Removed(segs[i], start, length, Unmapped(segs[i], start, end))
  {
    UnmapAllSorted(segs, start, end);
    forall x | 0 <= x < WORD32
      ensures Covered(Unmapped(segs[i], start, end), x) <==> segs[i].Covers(x) && !(start <= x < start + length)
    {
      UnmapAllCovers(segs, start, end, x);
      forall k | 0 <= k < |segs|
        ensures Covered(Unmapped(segs[k], start, end), x) ==> segs[k].Covers(x)
      {
        PieceCovers(segs[k], start, end, x);
      }
    }
  }

  /** memory_map_unmap leaves the list in order, covering exactly what it did without the range, if and only if
      it is sound for every segment. */
  lemma UnmapAllExactIff(segs: seq<Segment>, start: nat, length: nat, end: nat)
    requires Sorted(segs) && start < WORD32 && length < WORD32 && start + length <= WORD32
    requires end == (start + length) % WORD32
    ensures RemovedAll(segs, start, length, UnmapAll(segs, start, end)) <==>
            forall i :: 0 <= i < |segs| ==> Sound(segs[i], start, end)
  {
    forall i | 0 <= i < |segs|
      ensures Removed(segs[i], start, length, Unmapped(segs[i], start, end)) <==> Sound(segs[i], start, end)
    {
      UnmapExactIff(segs[i], start, length);
    }
    if RemovedAll(segs, start, length, UnmapAll(segs, start, end)) {
      forall i | 0 <= i < |segs|
        ensures Removed(segs[i], start, length, Unmapped(segs[i], start, end))
      {
        RemovedEach(segs, start, length, end, i);
      }
    } else if forall i :: 0 <= i < |segs| ==> Removed(segs[i], start, length, Unmapped(segs[i], start, end)) {
      EachRemoved(segs, start, length, end);
    }
  }

  /** What is left of a segment is backed as before except where its front was cut off: the offset of such a
      piece stays that of the old start. */
  lemma BackingKeptIff(s: Segment, start: nat, length: nat, i: nat, x: nat)
    requires s.Ok() && s.end != 0 && start + length < WORD32 && s.offset + s.end - s.start <= WORD32
    requires var r := Unmapped(s, start, start + length); i < |r| && r[i].Covers(x)
    ensures Unmapped(s, start, start + length)[i].Backing(x) == s.Backing(x) <==> !(start <= s.start < start + length)
  {
    assert start < s.start + 1 || s.start < start;
  }

  /** Each segment left over is a piece of one there was. */
  lemma {:induction false} PieceFrom(segs: seq<Segment>, start: nat, end: nat, j: nat) returns (k: nat)
    requires j < |UnmapAll(segs, start, end)|
    ensures k < |segs| && UnmapAll(segs, start, end)[j] in Unmapped(segs[k], start, end)
  {
    var n := |Unmapped(segs[0], start, end)|;
    if j < n {
      k := 0;
    } else {
      k := PieceFrom(segs[1..], start, end, j - n);
      k := k + 1;
    }
  }

  lemma PieceKind(s: Segment, start: nat, end: nat, piece: Segment, x: nat)
    requires s.Ok() && start < WORD32 && end < WORD32 && Sorted(Unmapped(s, start, end))
    requires piece in Unmapped(s, start, end) && piece.Covers(x)
    ensures s.Covers(x) && piece.growsDown == s.growsDown
  {
    PieceCovers(s, start, end, x);
  }

  lemma CoveredOnce(segs: seq<Segment>, i: nat, k: nat, x: nat)
    requires Sorted(segs) && i < |segs| && k < |segs| && segs[i].Covers(x) && segs[k].Covers(x)
    ensures i == k
  {
  }

  /** An address that is still mapped grows the way it did: a piece is a stack if and only if its segment was. */
  lemma KindKept(segs: seq<Segment>, start: nat, end: nat, i: nat, j: nat, x: nat)
    requires Sorted(segs) && start < WORD32 && end < WORD32 && Sorted(UnmapAll(segs, start, end))
    requires i < |segs| && segs[i].Covers(x)
    requires j < |UnmapAll(segs, start, end)| && UnmapAll(segs, start, end)[j].Covers(x)
    ensures UnmapAll(segs, start, end)[j].growsDown == segs[i].growsDown
  {
    hide UnmapAll, Unmapped;
    UnmapAllSorted(segs, start, end);
    var k := PieceFrom(segs, start, end, j);
    PieceKind(segs[k], start, end, UnmapAll(segs, start, end)[j], x);
    CoveredOnce(segs, i, k, x);
  }

  // ----- insert -----

  /** memory_map_insert_segment's search, from segment `i` on: the index to insert at, 0 if no segment is found
      to follow. */
  function PlaceFrom(segs: seq<Segment>, start: nat, end: nat, i: nat): (k: nat)
    requires i <= |segs|
    ensures k <= |segs|
    decreases |segs| - i
  {
    if i == |segs| then 0
    else if Follows(segs, start, end, i) then i + 1
    else PlaceFrom(segs, start, end, i + 1)
  }

  /** The range starts at or after the end of segment `i`, and does not reach the next one's start. */
  predicate Follows(segs: seq<Segment>, start: nat, end: nat, i: nat)
    requires i < |segs|
  {
    segs[i].end != 0 && start >= segs[i].end && (i + 1 == |segs| || end <= segs[i + 1].start)
  }

  function Inserted(segs: seq<Segment>, s: Segment): seq<Segment> {
    var k := PlaceFrom(segs, s.start, s.end, 0);
    segs[..k] + [s] + segs[k..]
  }

  ghost predicate Fits(segs: seq<Segment>, s: Segment) {
    forall i :: 0 <= i < |segs| ==> segs[i].Limit() <= s.start || s.Limit() <= segs[i].start
  }

  /** The search stops at the first segment that the range follows. */
  lemma {:induction false} PlaceFound(segs: seq<Segment>, start: nat, end: nat, i: nat)
    requires i <= |segs|
    ensures var k := PlaceFrom(segs, start, end, i);
            && (forall j :: i <= j < |segs| && (k == 0 || j < k - 1) ==> !Follows(segs, start, end, j))
            && (k > 0 ==> i < k && Follows(segs, start, end, k - 1))
    decreases |segs| - i
  {
    if i < |segs| && !Follows(segs, start, end, i) {
      PlaceFound(segs, start, end, i + 1);
    }
  }

  lemma InsertedAt(segs: seq<Segment>, s: Segment, k: nat, i: nat)
    requires k == PlaceFrom(segs, s.start, s.end, 0) && i <= |segs|
    ensures |Inserted(segs, s)| == |segs| + 1
    ensures Inserted(segs, s)[i] == if i < k then segs[i] else if i == k then s else segs[i - 1]
  {
  }

  /** Inserting keeps the list in order exactly when the range fits a gap and, if it reaches the top of the
      address space, at most one segment is there before. */
  lemma InsertSortedIff(segs: seq<Segment>, s: Segment)
    requires Sorted(segs) && s.Ok()
    ensures Sorted(Inserted(segs, s)) <==> Fits(segs, s) && (s.end != 0 || |segs| <= 1)
  {
    var k := PlaceFrom(segs, s.start, s.end, 0);
    PlaceFound(segs, s.start, s.end, 0);
    if Sorted(Inserted(segs, s)) {
      InsertedFits(segs, s, k);
    } else if Fits(segs, s) && (s.end != 0 || |segs| <= 1) {
      FitsInserted(segs, s, k);
    }
  }

  lemma InsertedFits(segs: seq<Segment>, s: Segment, k: nat)
    requires Sorted(segs) && s.Ok() && k == PlaceFrom(segs, s.start, s.end, 0) && Sorted(Inserted(segs, s))
    ensures Fits(segs, s) && (s.end != 0 || |segs| <= 1)
  {
    PlaceFound(segs, s.start, s.end, 0);
    var r := Inserted(segs, s);
    forall i | 0 <= i < |segs|
      ensures if i < k then segs[i].Limit() <= s.start else s.Limit() <= segs[i].start
    {
      InsertedAt(segs, s, k, k);
      InsertedAt(segs, s, k, if i < k then i else i + 1);
      assert if i < k then r[i].Limit() <= r[k].start else r[k].Limit() <= r[i + 1].start;
    }
  }

  lemma FitsInserted(segs: seq<Segment>, s: Segment, k: nat)
    requires Sorted(segs) && s.Ok() && k == PlaceFrom(segs, s.start, s.end, 0) && Fits(segs, s)
    requires s.end != 0 || |segs| <= 1
    ensures Sorted(Inserted(segs, s))
  {
    PlaceFound(segs, s.start, s.end, 0);
    GapFound(segs, s, k);
    var r := Inserted(segs, s);
    forall i, j | 0 <= i < j < |r|
      ensures r[i].Limit() <= r[j].start && r[i].Ok() && r[j].Ok()
    {
      InsertedAt(segs, s, k, i);
      InsertedAt(segs, s, k, j);
    }
    forall i | 0 <= i < |r|
      ensures r[i].Ok()
    {
      InsertedAt(segs, s, k, i);
    }
  }

  /** The place found is between the segments below the range and those above it. */
  lemma GapFound(segs: seq<Segment>, s: Segment, k: nat)
    requires Sorted(segs) && s.Ok() && k == PlaceFrom(segs, s.start, s.end, 0) && Fits(segs, s)
    requires s.end != 0 || |segs| <= 1
    ensures forall i :: 0 <= i < |segs| ==> if i < k then segs[i].Limit() <= s.start else s.Limit() <= segs[i].start
  {
    PlaceFound(segs, s.start, s.end, 0);
    if k == 0 {
      NoneBelow(segs, s, |segs|);
    }
    forall i | 0 <= i < |segs|
      ensures if i < k then segs[i].Limit() <= s.start else s.Limit() <= segs[i].start
    {
      if k > 0 {
        assert i < k - 1 ==> segs[i].Limit() <= segs[k - 1].start;
        assert k < i ==> segs[k].Limit() <= segs[i].start;
      }
    }
  }

  /** If the range follows no segment, it is below them all. */
  lemma {:induction false} NoneBelow(segs: seq<Segment>, s: Segment, n: nat)
    requires Sorted(segs) && s.Ok() && Fits(segs, s) && (s.end != 0 || |segs| <= 1) && n <= |segs|
    requires forall j :: 0 <= j < |segs| ==> !Follows(segs, s.start, s.end, j)
    ensures forall i :: |segs| - n <= i < |segs| ==> s.Limit() <= segs[i].start
  {
    if n > 0 {
      NoneBelow(segs, s, n - 1);
      assert !Follows(segs, s.start, s.end, |segs| - n);
    }
  }

  /** The new segment covers its range, and the others what they did. */
  lemma InsertCovers(segs: seq<Segment>, s: Segment, x: nat)
    ensures Covered(Inserted(segs, s), x) <==> Covered(segs, x) || s.Covers(x)
  {
    var k := PlaceFrom(segs, s.start, s.end, 0);
    CoveredConcat(segs[..k] + [s], segs[k..], x);
    CoveredConcat(segs[..k], [s], x);
    CoveredConcat(segs[..k], segs[k..], x);
    assert segs[..k] + segs[k..] == segs;
    CoveredTwo([s], x);
  }

  // ----- the heap and the stack -----

  /** memory_map_resize: None for EFAULT. */
  function Resized(segs: seq<Segment>, i: nat, diff: int): Option<seq<Segment>>
    requires i < |segs|
  {
    if segs[i].growsDown then
      var addr := (segs[i].start - diff) % WORD32;
      if i > 0 && (segs[i - 1].end == 0 || addr < segs[i - 1].end) then
        if addr < segs[i - 1].start then None
        else Some(segs[i - 1 := segs[i - 1].(end := addr)][i := segs[i].(start := addr)])
      else Some(segs[i := segs[i].(start := addr)])
    else
      var addr := (segs[i].end + diff) % WORD32;
      if i + 1 < |segs| && addr >= segs[i + 1].start then
        if segs[i + 1].end != 0 && addr > segs[i + 1].end then None
        else Some(segs[i + 1 := segs[i + 1].(start := addr)][i := segs[i].(end := addr)])
      else Some(segs[i := segs[i].(end := addr)])
  }

  /** memory_segment_find_prev from the last segment below `i`. */
  function FindBelow(segs: seq<Segment>, x: nat, i: nat): (k: Option<nat>)
    requires i <= |segs|
    ensures k.Some? ==> k.value < i && segs[k.value].Covers(x) && forall j :: k.value < j < i ==> !segs[j].Covers(x)
    ensures k.None? ==> forall j :: 0 <= j < i ==> !segs[j].Covers(x)
  {
    if i == 0 then None else if segs[i - 1].Covers(x) then Some(i - 1) else FindBelow(segs, x, i - 1)
  }

  datatype Status = Moved | Fault | NoMemory

  /** The 32-bit number `x`, taken as a signed one. */
  function Signed(x: nat): (r: int)
    requires x < WORD32
    ensures -WORD32 / 2 <= r < WORD32 / 2 && (r - x) % WORD32 == 0
  {
    if x < WORD32 / 2 then x else x - WORD32
  }

  /** The end of memory_map_move_sbrk: shrink the one that gives way, then grow the other. */
  function MoveBoundary(segs: seq<Segment>, k: nat, sbrk: nat, diff: int): (seq<Segment>, nat, Status)
    requires 0 < k < |segs|
  {
    var first, second := if diff >= 0 then k else k - 1, if diff >= 0 then k - 1 else k;
    var d := if diff >= 0 then -diff else diff;
    match Resized(segs, first, d)
    case None => (segs, sbrk, Fault)
    case Some(segs1) =>
      if second >= |segs1| then (segs1, sbrk, Fault)
      else
        match Resized(segs1, second, -d)
        case None => (segs1, sbrk, Fault)
        case Some(segs2) => (segs2, (sbrk + diff) % WORD32, Moved)
  }

  /** memory_map_move_sbrk: the segments, the new break, and what is returned. */
  function MoveSbrk(segs: seq<Segment>, sbrk: nat, diff: int, pageSize: nat): (seq<Segment>, nat, Status)
    requires pageSize > 0
  {
    match FindBelow(segs, sbrk, |segs|)
    case None => (segs, sbrk, Fault)
    case Some(k) =>
      if k == 0 || sbrk != segs[k].start then (segs, sbrk, Fault)
      else if Signed((segs[k].end - segs[k].start) % WORD32) + diff < 0 then (segs, sbrk, NoMemory)
      else if (if diff > 0 then diff else -diff) % pageSize != 0 then (segs, sbrk, NoMemory)
      else MoveBoundary(segs, k, sbrk, diff)
  }

  /** Whatever the segments, a move that is refused returns EFAULT and leaves the break where it is. */
  lemma BoundaryRefused(segs: seq<Segment>, k: nat, sbrk: nat, diff: int)
    requires 0 < k < |segs|
    ensures var (segs', sbrk', status) := MoveBoundary(segs, k, sbrk, diff);
            || (status == Moved && sbrk' == (sbrk + diff) % WORD32)
            || (status == Fault && sbrk' == sbrk)
  {
  }

  /** If no segment but the first starts at the break, it is not moved at all. */
  lemma SbrkNowhere(segs: seq<Segment>, sbrk: nat, diff: int, pageSize: nat)
    requires pageSize > 0 && forall k :: 0 < k < |segs| ==> segs[k].start != sbrk
    ensures MoveSbrk(segs, sbrk, diff, pageSize) == (segs, sbrk, Fault)
  {
  }

  /** The heap ends where the stack starts, at the break. */
  ghost predicate HeapStack(segs: seq<Segment>, k: nat, sbrk: nat) {
    && Sorted(segs) && 0 < k < |segs| && segs[k - 1].end == segs[k].start == sbrk && sbrk != 0
    && !segs[k - 1].growsDown && segs[k].growsDown && sbrk < segs[k].Limit() && segs[k].Limit() - sbrk < WORD32 / 2
  }

  /** Only the boundary between the two has moved. */
  ghost predicate BoundaryAt(segs: seq<Segment>, k: nat, sbrk: nat, segs': seq<Segment>) {
    0 < k < |segs| && segs' == segs[k - 1 := segs[k - 1].(end := sbrk)][k := segs[k].(start := sbrk)]
  }

  lemma HeapStackFound(segs: seq<Segment>, k: nat, sbrk: nat)
    requires HeapStack(segs, k, sbrk)
    ensures FindBelow(segs, sbrk, |segs|) == Some(k)
  {
    assert segs[k].Covers(sbrk);
    forall j | k < j < |segs|
      ensures !segs[j].Covers(sbrk)
    {
      assert segs[k].Limit() <= segs[j].start;
    }
  }

  /** A boundary in order is between the start of the heap and the end of the stack. */
  lemma BoundarySorted(segs: seq<Segment>, k: nat, sbrk: nat, to: nat, segs': seq<Segment>)
    requires HeapStack(segs, k, sbrk) && BoundaryAt(segs, k, to, segs') && to < WORD32
    ensures Sorted(segs') <==> segs[k - 1].start <= to <= segs[k].Limit() && to != 0
  {
    if Sorted(segs') {
      assert segs'[k - 1].Limit() <= segs'[k].start;
    }
    if segs[k - 1].start <= to <= segs[k].Limit() && to != 0 {
      forall i, j | 0 <= i < j < |segs'|
        ensures segs'[i].Limit() <= segs'[j].start
      {
        assert segs[i].Limit() <= segs[j].start;
        assert k < j ==> segs[k].Limit() <= segs[j].start;
        assert i < k - 1 ==> segs[i].Limit() <= segs[k - 1].start;
      }
      forall i | 0 <= i < |segs'|
        ensures segs'[i].Ok()
      {
        assert segs[i].Ok();
      }
    }
  }

  /** Moving up: the stack gives way, then the heap follows. */
  lemma SbrkUp(segs: seq<Segment>, k: nat, sbrk: nat, diff: int, to: nat, segs': seq<Segment>)
    requires HeapStack(segs, k, sbrk) && diff >= 0 && BoundaryAt(segs, k, to, segs')
    requires to == sbrk + diff <= segs[k].Limit() && to < WORD32
    ensures MoveBoundary(segs, k, sbrk, diff) == (segs', to, Moved)
  {
    assert to % WORD32 == to;
    var segs1 := segs[k := segs[k].(start := to)];
    assert Resized(segs, k, -diff) == Some(segs1);
    assert segs1[k := segs1[k].(start := to)][k - 1 := segs1[k - 1].(end := to)] == segs';
    assert Resized(segs1, k - 1, diff) == Some(segs');
  }

  /** Moving down: the heap gives way, then the stack follows. */
  lemma SbrkDown(segs: seq<Segment>, k: nat, sbrk: nat, diff: int, to: nat, segs': seq<Segment>)
    requires HeapStack(segs, k, sbrk) && diff < 0 && segs[k - 1].start <= to == sbrk + diff && 0 < to
    requires BoundaryAt(segs, k, to, segs')
    ensures MoveBoundary(segs, k, sbrk, diff) == (segs', to, Moved)
  {
    assert to % WORD32 == to;
    var segs1 := segs[k - 1 := segs[k - 1].(end := to)];
    assert Resized(segs, k - 1, diff) == Some(segs1);
    assert segs1[k := segs1[k].(start := to)] == segs';
    assert Resized(segs1, k, -diff) == Some(segs');
  }

  predicate Pages(diff: int, pageSize: nat)
    requires pageSize > 0
  {
    (if diff > 0 then diff else -diff) % pageSize == 0
  }

  /** The checks before anything moves. */
  lemma SbrkChecks(segs: seq<Segment>, k: nat, sbrk: nat, diff: int, pageSize: nat)
    requires HeapStack(segs, k, sbrk) && pageSize > 0
    ensures MoveSbrk(segs, sbrk, diff, pageSize) ==
            if segs[k].Limit() - sbrk + diff < 0 || !Pages(diff, pageSize) then (segs, sbrk, NoMemory)
            else MoveBoundary(segs, k, sbrk, diff)
  {
    HeapStackFound(segs, k, sbrk);
    assert (segs[k].end - segs[k].start) % WORD32 == segs[k].Limit() - sbrk;
  }

  /** Past the end of the stack the stack is moved before the heap is refused. */
  lemma SbrkTooFar(segs: seq<Segment>, k: nat, sbrk: nat, diff: int)
    requires HeapStack(segs, k, sbrk) && segs[k].Limit() < sbrk + diff < WORD32
    ensures MoveBoundary(segs, k, sbrk, diff) == (segs[k := segs[k].(start := sbrk + diff)], sbrk, Fault)
  {
    var segs1 := segs[k := segs[k].(start := sbrk + diff)];
    assert (sbrk + diff) % WORD32 == sbrk + diff;
    assert Resized(segs, k, -diff) == Some(segs1) && Resized(segs1, k - 1, diff) == None;
  }

  /** At address 0 the heap is moved before the stack is refused. */
  lemma SbrkToZero(segs: seq<Segment>, k: nat, sbrk: nat)
    requires HeapStack(segs, k, sbrk) && segs[k - 1].start > 0
    ensures MoveBoundary(segs, k, sbrk, 0 - sbrk) == (segs[k - 1 := segs[k - 1].(end := 0)], sbrk, Fault)
  {
    var segs1 := segs[k - 1 := segs[k - 1].(end := 0)];
    assert Resized(segs, k - 1, 0 - sbrk) == Some(segs1) && Resized(segs1, k, sbrk) == None;
  }

  lemma SbrkFromZero(segs: seq<Segment>, k: nat, sbrk: nat)
    requires HeapStack(segs, k, sbrk) && segs[k - 1].start == 0
    ensures MoveBoundary(segs, k, sbrk, 0 - sbrk).2 == Moved && !Sorted(MoveBoundary(segs, k, sbrk, 0 - sbrk).0)
  {
    var segs1 := segs[k - 1 := segs[k - 1].(end := 0)];
    assert Resized(segs, k - 1, 0 - sbrk) == Some(segs1);
    var segs2 := segs1[k - 1 := segs1[k - 1].(end := 0)][k := segs1[k].(start := 0)];
    assert Resized(segs1, k, sbrk) == Some(segs2);
    assert segs2[k - 1].Limit() > segs2[k].start;
  }

  /** Below the start of the heap both move, and the heap ends before it starts. */
  lemma SbrkTooLow(segs: seq<Segment>, k: nat, sbrk: nat, diff: int)
    requires HeapStack(segs, k, sbrk) && 0 < sbrk + diff < segs[k - 1].start
    ensures MoveBoundary(segs, k, sbrk, diff).2 == Moved && !Sorted(MoveBoundary(segs, k, sbrk, diff).0)
  {
    var to := sbrk + diff;
    assert to % WORD32 == to;
    assert segs[k - 1].Ok();
    var segs1 := segs[k - 1 := segs[k - 1].(end := to)];
    assert Resized(segs, k - 1, diff) == Some(segs1);
    var segs2 := segs1[k := segs1[k].(start := to)];
    assert Resized(segs1, k, -diff) == Some(segs2);
    assert !segs2[k - 1].Ok();
  }

  /** The break can be moved by `diff`: within the heap and the stack, by whole pages, and down by no more than
      the stack is long. */
  predicate CanMove(segs: seq<Segment>, k: nat, sbrk: nat, diff: int, pageSize: nat)
    requires 0 < k < |segs| && pageSize > 0
  {
    && segs[k - 1].start <= sbrk + diff <= segs[k].Limit() && sbrk + diff != 0
    && segs[k].Limit() - sbrk + diff >= 0 && Pages(diff, pageSize)
  }

  /** The break moves as asked, with the boundary between heap and stack, if and only if it can. */
  lemma SbrkMovesIff(segs: seq<Segment>, k: nat, sbrk: nat, diff: int, pageSize: nat, segs': seq<Segment>, sbrk': nat,
      status: Status)
    requires HeapStack(segs, k, sbrk) && pageSize > 0 && 0 <= sbrk + diff < WORD32
    requires (segs', sbrk', status) == MoveSbrk(segs, sbrk, diff, pageSize)
    ensures (status == Moved && sbrk' == sbrk + diff && BoundaryAt(segs, k, sbrk + diff, segs') && Sorted(segs'))
       <==> CanMove(segs, k, sbrk, diff, pageSize)
  {
    hide MoveSbrk, MoveBoundary, Pages;
    SbrkChecks(segs, k, sbrk, diff, pageSize);
    var to := segs[k - 1 := segs[k - 1].(end := sbrk + diff)][k := segs[k].(start := sbrk + diff)];
    BoundarySorted(segs, k, sbrk, sbrk + diff, to);
    if segs[k - 1].start <= sbrk + diff <= segs[k].Limit() && sbrk + diff != 0 {
      if diff >= 0 {
        SbrkUp(segs, k, sbrk, diff, sbrk + diff, to);
      } else {
        SbrkDown(segs, k, sbrk, diff, sbrk + diff, to);
      }
    }
  }

  /** A move that is refused changes nothing if and only if it is refused by the checks; else one segment has
      moved already. */
  lemma RefusedUnchangedIff(segs: seq<Segment>, k: nat, sbrk: nat, diff: int, pageSize: nat, segs': seq<Segment>,
      sbrk': nat, status: Status)
    requires HeapStack(segs, k, sbrk) && pageSize > 0 && 0 <= sbrk + diff < WORD32
    requires (segs', sbrk', status) == MoveSbrk(segs, sbrk, diff, pageSize) && status != Moved
    ensures sbrk' == sbrk && (segs' == segs <==> status == NoMemory)
    ensures status == NoMemory <==> segs[k].Limit() - sbrk + diff < 0 || !Pages(diff, pageSize)
    ensures status == Fault ==> !Sorted(segs')
  {
    SbrkChecks(segs, k, sbrk, diff, pageSize);
    if segs[k].Limit() - sbrk + diff >= 0 && Pages(diff, pageSize) {
      BoundaryMoves(segs, k, sbrk, diff);
    }
  }

  /** The resizes fail only past the end of the stack, or at address 0. */
  lemma BoundaryMoves(segs: seq<Segment>, k: nat, sbrk: nat, diff: int)
    requires HeapStack(segs, k, sbrk) && 0 <= sbrk + diff < WORD32
    ensures var (segs', sbrk', status) := MoveBoundary(segs, k, sbrk, diff);
            status != Moved ==> status == Fault && sbrk' == sbrk && segs' != segs && !Sorted(segs')
  {
    var to := segs[k - 1 := segs[k - 1].(end := sbrk + diff)][k := segs[k].(start := sbrk + diff)];
    if segs[k].Limit() < sbrk + diff {
      SbrkTooFar(segs, k, sbrk, diff);
      assert !segs[k := segs[k].(start := sbrk + diff)][k].Ok();
    } else if diff >= 0 {
      SbrkUp(segs, k, sbrk, diff, sbrk + diff, to);
    } else if sbrk + diff == 0 {
      if segs[k - 1].start > 0 {
        SbrkToZero(segs, k, sbrk);
        var r := segs[k - 1 := segs[k - 1].(end := 0)];
        assert r[k - 1].end != segs[k - 1].end && r[k - 1].Limit() > r[k].start;
      } else {
        SbrkFromZero(segs, k, sbrk);
      }
    } else if sbrk + diff < segs[k - 1].start {
      SbrkTooLow(segs, k, sbrk, diff);
    } else {
      SbrkDown(segs, k, sbrk, diff, sbrk + diff, to);
    }
  }

  // ----- the code -----

  /** The part of the list up to `i` done, the rest to do: one segment more. */
  lemma UnmapSplit(segs: seq<Segment>, i: nat, start: nat, end: nat)
    requires i < |segs|
    ensures var p := Unmapped(segs[i], start, end);
            var segs' := segs[..i] + p + segs[i + 1..];
            segs[..i] + UnmapAll(segs[i..], start, end) == segs'[..i + |p|] + UnmapAll(segs'[i + |p|..], start, end)
  {
    var p := Unmapped(segs[i], start, end);
    var segs' := segs[..i] + p + segs[i + 1..];
    assert segs'[..i + |p|] == segs[..i] + p && segs'[i + |p|..] == segs[i + 1..] == segs[i..][1..];
  }

  class MemoryMap {
    var segments: seq<Segment>
    var codeStart: nat
    var dataStart: nat
    var heapStart: nat
    var sbrk: nat

    constructor ()
      ensures segments == [] && codeStart == dataStart == heapStart == 0 && sbrk == 0
    {
      segments, codeStart, dataStart, heapStart, sbrk := [], 0, 0, 0, 0;
    }

    /** memory_map_find: the first segment that covers an address. */
    method Find(address: nat) returns (r: Option<nat>)
      requires address < WORD32
      ensures match r
              case None => !Covered(segments, address)
              case Some(i) =>
                i < |segments| && segments[i].Covers(address) && forall j :: 0 <= j < i ==> !segments[j].Covers(address)
    {
      var i := 0;
      while i < |segments|
        invariant 0 <= i <= |segments| && forall j :: 0 <= j < i ==> !segments[j].Covers(address)
      {
        var cur := segments[i];
        if address >= cur.start && (cur.end == 0 || address < cur.end) {
          return Some(i);
        }
        i := i + 1;
      }
      return None;
    }

    /** memory_map_insert_segment. */
    method InsertSegment(start: nat, length: nat, growsDown: bool, offset: nat)
      modifies this`segments
      ensures segments == Inserted(old(segments), Segment(start, (start + length) % WORD32, growsDown, offset))
    {
      var end := (start + length) % WORD32;
      var i := 0;
      while i < |segments| && !(segments[i].end != 0 && start >= segments[i].end
            && (i + 1 == |segments| || end <= segments[i + 1].start))
        invariant 0 <= i <= |segments| && PlaceFrom(segments, start, end, 0) == PlaceFrom(segments, start, end, i)
      {
        i := i + 1;
      }
      var k := if i < |segments| then i + 1 else 0;
      segments := segments[..k] + [Segment(start, end, growsDown, offset)] + segments[k..];
    }

    /** memory_map_unmap's loop body; the index returned is that of the segment after, which a split puts one
        further on. */
    method UnmapAt(i: nat, start: nat, end: nat) returns (next: nat)
      requires i < |segments|
      modifies this`segments
      ensures segments == old(segments[..i]) + Unmapped(old(segments[i]), start, end) + old(segments[i + 1..])
      ensures next == i + |Unmapped(old(segments[i]), start, end)|
    {
      var cur := segments[i];
      if start <= cur.start <= end {
        if start <= cur.end <= end {
          segments := segments[..i] + segments[i + 1..];
          return i;
        }
        segments := segments[i := cur.(start := end)];
      } else if start <= cur.end <= end {
        segments := segments[i := cur.(end := start)];
      } else if cur.start <= start <= cur.end {
        var rest := cur.(start := end, offset := (cur.offset + (end - cur.start)) % WORD32);
        segments := segments[..i + 1] + [rest] + segments[i + 1..];
        segments := segments[i := cur.(end := start)];
        return i + 2;
      }
      return i + 1;
    }

    /** memory_map_unmap. */
    method Unmap(start: nat, length: nat)
      modifies this
      ensures segments == UnmapAll(old(segments), start, (start + length) % WORD32)
      ensures sbrk == old(sbrk) && codeStart == Marker(old(codeStart), start, (start + length) % WORD32)
      ensures dataStart == Marker(old(dataStart), start, (start + length) % WORD32)
      ensures heapStart == Marker(old(heapStart), start, (start + length) % WORD32)
    {
      var end := (start + length) % WORD32;
      var i := 0;
      while i < |segments|
        invariant 0 <= i <= |segments|
        invariant UnmapAll(old(segments), start, end) == segments[..i] + UnmapAll(segments[i..], start, end)
        invariant codeStart == old(codeStart) && dataStart == old(dataStart) && heapStart == old(heapStart)
        invariant sbrk == old(sbrk)
        decreases |segments| - i
      {
        UnmapSplit(segments, i, start, end);
        i := UnmapAt(i, start, end);
      }
      if start <= codeStart <= end {
        codeStart := start;
      }
      if start <= dataStart <= end {
        dataStart := start;
      }
      if start <= heapStart <= end {
        heapStart := start;
      }
    }

    /** memory_map_resize: false for EFAULT. */
    method Resize(i: nat, diff: int) returns (ok: bool)
      requires i < |segments|
      modifies this`segments
      ensures ok <==> Resized(old(segments), i, diff).Some?
      ensures segments == if ok then Resized(old(segments), i, diff).value else old(segments)
      ensures |segments| == |old(segments)|
    {
      var s := segments[i];
      if s.growsDown {
        var addr: nat := (s.start - diff) % WORD32;
        if i > 0 && (segments[i - 1].end == 0 || addr < segments[i - 1].end) {
          if addr < segments[i - 1].start {
            return false;
          }
          segments := segments[i - 1 := segments[i - 1].(end := addr)];
        }
        segments := segments[i := s.(start := addr)];
      } else {
        var addr: nat := (s.end + diff) % WORD32;
        if i + 1 < |segments| && addr >= segments[i + 1].start {
          if segments[i + 1].end != 0 && addr > segments[i + 1].end {
            return false;
          }
          segments := segments[i + 1 := segments[i + 1].(start := addr)];
        }
        segments := segments[i := s.(end := addr)];
      }
      return true;
    }

    /** memory_segment_find_prev from the end of the list: -1 for none. */
    method FindLast(address: nat) returns (k: int)
      requires address < WORD32
      ensures -1 <= k < |segments| && FindBelow(segments, address, |segments|) == if k < 0 then None else Some(k)
    {
      k := |segments| - 1;
      while k >= 0 && !(address >= segments[k].start && (segments[k].end == 0 || address < segments[k].end))
        invariant -1 <= k < |segments|
        invariant FindBelow(segments, address, |segments|) == FindBelow(segments, address, k + 1)
      {
        k := k - 1;
      }
    }

    /** The end of memory_map_move_sbrk. */
    method MoveTo(k: nat, diff: int) returns (status: Status)
      requires 0 < k < |segments|
      modifies this`segments, this`sbrk
      ensures (segments, sbrk, status) == MoveBoundary(old(segments), k, old(sbrk), diff)
    {
      var ok;
      if diff >= 0 {
        ok := Resize(k, -diff);
      } else {
        ok := Resize(k - 1, diff);
      }
      if !ok {
        return Fault;
      }
      if diff >= 0 {
        ok := Resize(k - 1, diff);
      } else {
        ok := Resize(k, -diff);
      }
      if !ok {
        return Fault;
      }
      sbrk := (sbrk + diff) % WORD32;
      return Moved;
    }

    /** memory_map_move_sbrk. */
    method MoveBreak(diff: int, pageSize: nat) returns (status: Status)
      requires pageSize > 0 && sbrk < WORD32
      modifies this`segments, this`sbrk
      ensures (segments, sbrk, status) == MoveSbrk(old(segments), old(sbrk), diff, pageSize)
    {
      var k := FindLast(sbrk);
      if k <= 0 || sbrk != segments[k].start {
        return Fault;
      }
      if Signed((segments[k].end - segments[k].start) % WORD32) + diff < 0
         || (if diff > 0 then diff else -diff) % pageSize != 0 {
        return NoMemory;
      }
      status := MoveTo(k, diff);
    }
  }

  /** What becomes of an address kept beside the list. */
  function Marker(m: nat, start: nat, end: nat): nat {
    if start <= m <= end then start else m
  }

  /** An address in the range unmapped gives way to its start if and only if the range does not reach the top of the
      address space; so does the one behind the range, and no other. */
  lemma MarkerMovesIff(m: nat, start: nat, length: nat)
    requires m < WORD32 && start < WORD32 && start + length <= WORD32
    ensures var m' := Marker(m, start, (start + length) % WORD32);
            && (start < m < start + length ==> (m' == start <==> start + length < WORD32))
            && (m == start + length ==> m' == start)
            && (!(start <= m <= start + length) ==> m' == m) && (m' == start || m' == m)
  {
    if m == start + length {
      assert (start + length) % WORD32 == m;
    }
  }
}
