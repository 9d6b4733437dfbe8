/**
 memory_map_unmap as a whole: the pieces it cuts from the segments of an
 address space are those it releases in the page tables, so that the list of
 segments and the paging machine go on showing the same address space.
 */
module Munmap {
  import opened Common
  import opened CopyOnWrite
  import opened Segments

  /** sub_start and sub_end of memory_map_unmap's loop. */
  function Cut(s: Segment, start: nat, end: nat): (nat, nat) {
    if start <= s.start <= end then (s.start, if start <= s.end <= end then s.end else end)
    else if start <= s.end <= end then (start, s.end)
    else if s.start <= start <= s.end then (start, end)
    else (0, 0)
  }

  /** The first address cut off, and how many; a difference of 32-bit numbers. */
  function CutLength(s: Segment, start: nat, end: nat): (n: nat)
    ensures n < WORD32
  {
    (Cut(s, start, end).1 - Cut(s, start, end).0) % WORD32
  }

  /** Where the comparisons come out right, what is cut off is what the segment and the range have in common. */
  lemma CutCovers(s: Segment, start: nat, length: nat, x: nat)
    requires s.Ok() && start < WORD32 && length < WORD32 && start + length <= WORD32 && x < WORD32
    requires Sound(s, start, (start + length) % WORD32)
    ensures var end := (start + length) % WORD32;
            var a := Cut(s, start, end).0;
            a <= x < a + CutLength(s, start, end) <==> s.Covers(x) && start <= x < start + length
  {
  }

  // ----- pages -----

  predicate AlignedTo(s: Segment, size: nat)
    requires size > 0
  {
    s.start % size == 0 && s.end % size == 0
  }

  lemma CutAligned(s: Segment, start: nat, end: nat, size: nat)
    requires size > 0 && WORD32 % size == 0 && AlignedTo(s, size) && start % size == 0 && end % size == 0
    ensures Cut(s, start, end).0 % size == 0 && CutLength(s, start, end) % size == 0
  {
    var (a, b) := Cut(s, start, end);
    assert 0 % size == 0;
    SumMultiple(b, a, size);
    WordMultiple(b - a, size);
  }

  /** 32-bit numbers wrap at a page boundary. */
  lemma WordMultiple(x: int, size: nat)
    requires size > 0 && WORD32 % size == 0 && x % size == 0
    ensures x % WORD32 % size == 0
  {
    var q, k := x / WORD32, WORD32 / size;
    assert x % WORD32 == x - q * WORD32;
    assert q * WORD32 == q * (k * size) == (q * k) * size;
    DivModUnique(x - q * WORD32, size, x / size - q * k, 0);
  }

  lemma PageIn(p: nat, a: nat, n: nat, size: nat)
    requires size > 0 && a % size == 0 && n % size == 0
    ensures a <= p * size < a + n <==> a / size <= p < a / size + n / size
  {
    var k, m := a / size, n / size;
    assert a == k * size && a + n == (k + m) * size;
    StrictMul(k, p, size);
    StrictMul(p, k, size);
    StrictMul(p, k + m, size);
    StrictMul(k + m, p, size);
  }

  /** The first address of a page. */
  function Base(p: nat, size: nat): nat {
    p * size
  }

  function PageOf(x: nat, size: nat): nat
    requires size > 0
  {
    x / size
  }

  /** The pages that memory_map_unmap releases of one segment. */
  function CutOf(space: nat, s: Segment, start: nat, end: nat, size: nat): Op
    requires size > 0
  {
    Unmap(space, PageOf(Cut(s, start, end).0, size), PageOf(CutLength(s, start, end), size))
  }

  function CutOps(space: nat, segs: seq<Segment>, start: nat, end: nat, size: nat): seq<Op>
    requires size > 0
  {
    if segs == [] then [] else [CutOf(space, segs[0], start, end, size)] + CutOps(space, segs[1..], start, end, size)
  }

  /** A range of whole pages, and segments of which the comparisons of memory_map_unmap come out right. */
  ghost predicate Clear(segs: seq<Segment>, start: nat, length: nat, size: nat) {
    && 0 < size < WORD32 && WORD32 % size == 0 && start % size == 0 && length % size == 0
    && start < WORD32 && length < WORD32 && start + length <= WORD32
    && Sorted(segs)
    && (forall i :: 0 <= i < |segs| ==> AlignedTo(segs[i], size) && Sound(segs[i], start, (start + length) % WORD32))
  }

  lemma CutPages(segs: seq<Segment>, i: nat, start: nat, length: nat, size: nat, space: nat, p: nat)
    requires Clear(segs, start, length, size) && i < |segs|
    ensures var op := CutOf(space, segs[i], start, (start + length) % WORD32, size);
            op.start <= p < op.start + op.n <==>
              segs[i].Covers(Base(p, size)) && start <= Base(p, size) < start + length
  {
    var end := (start + length) % WORD32;
    SumMultiple(start, length, size);
    WordMultiple(start + length, size);
    CutAligned(segs[i], start, end, size);
    PageIn(p, Cut(segs[i], start, end).0, CutLength(segs[i], start, end), size);
    assert segs[i].Ok();
    if Base(p, size) < WORD32 {
      CutCovers(segs[i], start, length, Base(p, size));
    } else {
      CutBelow(segs[i], start, length);
    }
  }

  lemma CutBelow(s: Segment, start: nat, length: nat)
    requires s.Ok() && start < WORD32 && length < WORD32 && start + length <= WORD32
    requires Sound(s, start, (start + length) % WORD32)
    ensures Cut(s, start, (start + length) % WORD32).0 + CutLength(s, start, (start + length) % WORD32) <= WORD32
  {
  }

  // ----- the two address spaces -----

  /** The segments of `space` are those on the list. */
  ghost predicate Lists(vm: VM, space: nat, segs: seq<Segment>, size: nat) {
    forall p: nat :: At(space, p) in vm.segs <==> Covered(segs, Base(p, size))
  }

  lemma {:induction false} UnmapPagesSegs(vm: VM, s: nat, start: nat, n: nat)
    ensures UnmapPages(vm, s, start, n).segs == vm.segs - Range(s, start, n)
    decreases n
  {
    if n == 0 {
      assert Range(s, start, n) == {};
    } else {
      UnmapPagesSegs(UnmapPage(vm, At(s, start)), s, start + 1, n - 1);
      RangeFirst(s, start, n);
    }
  }

  /** The pages of these segments are there to be unmapped. */
  ghost predicate Present(vm: VM, space: nat, segs: seq<Segment>, size: nat) {
    forall i, p: nat :: 0 <= i < |segs| && segs[i].Covers(Base(p, size)) ==> At(space, p) in vm.segs
  }

  /** Page `a` of the address space is one that the range has in common with the segments. */
  predicate Shared(space: nat, segs: seq<Segment>, start: nat, length: nat, size: nat, a: At) {
    a.space == space && Covered(segs, Base(a.page, size)) && start <= Base(a.page, size) < start + length
  }

  lemma CutEffect(vm: VM, space: nat, segs: seq<Segment>, start: nat, length: nat, size: nat, op: Op)
    requires Clear(segs, start, length, size) && segs != [] && Present(vm, space, segs, size)
    requires op == CutOf(space, segs[0], start, (start + length) % WORD32, size)
    ensures Legal(vm, op)
    ensures forall a :: a in Step(vm, size, op).0.segs <==>
              a in vm.segs && !(a.space == space && segs[0].Covers(Base(a.page, size))
                                && start <= Base(a.page, size) < start + length)
  {
    forall p: nat
      ensures op.start <= p < op.start + op.n <==>
              segs[0].Covers(Base(p, size)) && start <= Base(p, size) < start + length
    {
      CutPages(segs, 0, start, length, size, space, p);
    }
    hide Clear, CutOf, Base;
    UnmapPieceSegs(vm, space, op.start, op.n);
  }

  lemma UnmapPieceSegs(vm: VM, s: nat, start: nat, n: nat)
    ensures UnmapPiece(vm, s, start, n).segs == vm.segs - Range(s, start, n)
  {
    UnmapPagesSegs(vm, s, start, n);
  }

  /** Unmapping the first segment's cut leaves the others as they are. */
  lemma CutFirst(vm: VM, vm': VM, space: nat, segs: seq<Segment>, start: nat, length: nat, size: nat)
    requires Clear(segs, start, length, size) && segs != [] && Present(vm, space, segs, size)
    requires forall a :: a in vm.segs && !segs[0].Covers(Base(a.page, size)) ==> a in vm'.segs
    ensures Clear(segs[1..], start, length, size) && Present(vm', space, segs[1..], size)
  {
    assert forall i :: 0 <= i < |segs[1..]| ==> segs[1..][i] == segs[i + 1];
    forall i, p: nat | 0 <= i < |segs[1..]| && segs[1..][i].Covers(Base(p, size))
      ensures At(space, p) in vm'.segs
    {
      assert segs[i + 1].Covers(Base(p, size)) && segs[0].Limit() <= segs[i + 1].start;
      assert At(space, p) in vm.segs;
    }
  }

  /** memory_map_unmap's loop is a run of the machine, and takes out exactly what the range and the segments share. */
  lemma {:induction false} CutRun(vm: VM, space: nat, segs: seq<Segment>, start: nat, length: nat, size: nat)
    requires Clear(segs, start, length, size) && Present(vm, space, segs, size) && start > 0
    ensures var ops := CutOps(space, segs, start, (start + length) % WORD32, size);
            && Runs(vm, size, ops)
            && forall a :: a in After(vm, size, ops).segs <==>
                 a in vm.segs && !Shared(space, segs, start, length, size, a)
    decreases |segs|
  {
    var end := (start + length) % WORD32;
    var ops := CutOps(space, segs, start, end, size);
    if segs != [] {
      CutEffect(vm, space, segs, start, length, size, ops[0]);
      var vm1 := Step(vm, size, ops[0]).0;
      CutFirst(vm, vm1, space, segs, start, length, size);
      CutSafe(vm, space, segs[0], start, end, size);
      CutRun(vm1, space, segs[1..], start, length, size);
      assert ops[1..] == CutOps(space, segs[1..], start, end, size);
      forall x
        ensures Covered(segs, x) <==> segs[0].Covers(x) || Covered(segs[1..], x)
      {
        CoveredFirst(segs, x);
      }
    }
  }

  lemma CutSafe(vm: VM, space: nat, s: Segment, start: nat, end: nat, size: nat)
    requires size > 0 && start > 0 && start % size == 0
    ensures Safe(vm, CutOf(space, s, start, end, size))
  {
    var a := Cut(s, start, end).0;
    MultipleGap(0, start, size);
    if a >= start {
      StrictMul(a / size, 1, size);
      assert a / size >= 1;
    } else {
      assert CutLength(s, start, end) == 0;
    }
  }

  lemma CoveredFirst(segs: seq<Segment>, x: nat)
    requires segs != []
    ensures Covered(segs, x) <==> segs[0].Covers(x) || Covered(segs[1..], x)
  {
    CoveredConcat([segs[0]], segs[1..], x);
    assert segs == [segs[0]] + segs[1..];
  }

  lemma CoveredBelow(segs: seq<Segment>, x: nat)
    requires Sorted(segs)
    ensures Covered(segs, x) ==> x < WORD32
  {
  }

  /** Memory that is never shared only loses pages. */
  lemma {:induction false} EagerCuts(e: Eager, size: nat, ops: seq<Op>, given: seq<Reply>)
    requires |given| == |ops| && forall i :: 0 <= i < |ops| ==> ops[i].Unmap?
    ensures forall a :: a in EagerRun(e, size, ops, given).0 ==> a in e && EagerRun(e, size, ops, given).0[a] == e[a]
    decreases |ops|
  {
    if ops != [] {
      var e1 := if given[0] == Failed(Fault.NoMemory) then e else EagerStep(e, size, ops[0]).0;
      EagerCuts(e1, size, ops[1..], given[1..]);
    }
  }

  lemma {:induction false} CutsUnmap(space: nat, segs: seq<Segment>, start: nat, end: nat, size: nat)
    requires size > 0
    ensures forall i :: 0 <= i < |CutOps(space, segs, start, end, size)| ==>
              CutOps(space, segs, start, end, size)[i].Unmap?
    decreases |segs|
  {
    if segs != [] {
      CutsUnmap(space, segs[1..], start, end, size);
    }
  }

  /**
   memory_map_unmap of a range above address 0: list and machine still show the
   same segments, and of memory that is never shared exactly the pages of the
   range are gone, with nothing else changed.
   */
  lemma MunmapShows(vm: VM, size: nat, e: Eager, space: nat, segs: seq<Segment>, start: nat, length: nat)
    requires Inv(vm, size) && Shows(vm, size, e) && Lists(vm, space, segs, size)
    requires Clear(segs, start, length, size) && start > 0
    ensures var end := (start + length) % WORD32;
            var ops := CutOps(space, segs, start, end, size);
            && Runs(vm, size, ops) && Inv(After(vm, size, ops), size)
            && Lists(After(vm, size, ops), space, UnmapAll(segs, start, end), size)
            && Shows(After(vm, size, ops), size, map a | a in e && !Shared(space, segs, start, length, size, a) :: e[a])
  {
    var end := (start + length) % WORD32;
    var ops := CutOps(space, segs, start, end, size);
    CutRun(vm, space, segs, start, length, size) by {
      assert Present(vm, space, segs, size);
    }
    var vm' := After(vm, size, ops);
    UnmapAllExactIff(segs, start, length, end);
    ListsAfter(vm, vm', space, segs, start, length, size);
    RunRefines(vm, size, e, ops);
    var given := Replies(vm, size, ops);
    CutsUnmap(space, segs, start, end, size);
    EagerCuts(e, size, ops, given);
    var e' := EagerRun(e, size, ops, given).0;
    assert e' == map a | a in e && !Shared(space, segs, start, length, size, a) :: e[a];
  }

  lemma ListsAfter(vm: VM, vm': VM, space: nat, segs: seq<Segment>, start: nat, length: nat, size: nat)
    requires Lists(vm, space, segs, size) && Clear(segs, start, length, size)
    requires forall a :: a in vm'.segs <==> a in vm.segs && !Shared(space, segs, start, length, size, a)
    requires RemovedAll(segs, start, length, UnmapAll(segs, start, (start + length) % WORD32))
    ensures Lists(vm', space, UnmapAll(segs, start, (start + length) % WORD32), size)
  {
    var rest := UnmapAll(segs, start, (start + length) % WORD32);
    forall p: nat
      ensures At(space, p) in vm'.segs <==> Covered(rest, Base(p, size))
    {
      CoveredBelow(segs, Base(p, size));
      CoveredBelow(rest, Base(p, size));
      assert At(space, p) in vm.segs <==> Covered(segs, Base(p, size));
    }
  }
}
