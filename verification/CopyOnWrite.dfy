/**
 Demand paging and copy-on-write. Address spaces share physical pages after a
 fork and get pages of their own when first written; page frames are counted.
 The machine is shown to answer every run of loads and stores exactly as one
 in which memory is zero-filled when mapped and copied whole when forked.
 */
module CopyOnWrite {
  import opened Common

  /** A virtual page of an address space. */
  datatype At = At(space: nat, page: nat)

  /** A leaf descriptor: the physical page and the write-protect bit. */
  datatype Pte = Pte(frame: nat, writeProtect: bool)

  /**
   `mem` and `refs` are the page frames in use and their counts, `segs` the
   virtual pages that lie in a segment, with its SEG_WRITE flag, and `ptes`
   those of them that are loaded. `low` is what the machine holds at physical
   address 0, outside the page allocator.
   */
  datatype VM = VM(mem: map<nat, seq<byte>>, refs: map<nat, nat>, segs: map<At, bool>, ptes: map<At, Pte>,
      low: seq<byte>)

  const REFCOUNT_MAX := 0xFFFF

  // ----- page frames -----

  /** page_alloc, then filling the page. */
  function Alloc(vm: VM, f: nat, contents: seq<byte>): VM {
    vm.(mem := vm.mem[f := contents], refs := vm.refs[f := 1])
  }

  /** page_free of one page: a 16-bit count goes down, and the page is released when it reaches zero. */
  function Free(vm: VM, f: nat): VM {
    if f !in vm.refs then vm
    else
      var r := (vm.refs[f] + REFCOUNT_MAX) % (REFCOUNT_MAX + 1);
      if r == 0 then vm.(mem := vm.mem - {f}, refs := vm.refs - {f}) else vm.(refs := vm.refs[f := r])
  }

  /** page_make_ref of one page: the count is 16 bits wide. */
  function MakeRef(vm: VM, f: nat): VM {
    if f !in vm.refs then vm else vm.(refs := vm.refs[f := (vm.refs[f] + 1) % (REFCOUNT_MAX + 1)])
  }

  // ----- page faults -----

  datatype Fault = Resolved | NoMemory | Refused

  /** memory_map_convert_copy_on_write: a private copy of `contents`, then the old page, if any, is given up. */
  function Privatize(vm: VM, a: At, contents: seq<byte>, frame: nat): VM {
    var vm1 := Alloc(vm, frame, contents).(ptes := vm.ptes[a := Pte(frame, false)]);
    if a in vm.ptes then Free(vm1, vm.ptes[a].frame) else vm1
  }

  /**
   memory_map_load_page_at; `frame` is what page_alloc returns.
   mmu_table_get_page reports an unloaded page at or below address PAGE_SIZE
   as loaded at physical address 0.
   */
  function LoadPageAt(vm: VM, size: nat, a: At, write: bool, frame: Option<nat>): (VM, Fault) {
    if a !in vm.segs then (vm, Refused)
    else if a in vm.ptes || a.page <= 1 then
      if !(write && vm.segs[a]) then (vm, Refused)
      else if frame == None then (vm, NoMemory)
      else
        var contents := if a !in vm.ptes then vm.low else if vm.ptes[a].frame in vm.mem then vm.mem[vm.ptes[a].frame]
          else Zeros(size);
        (Privatize(vm, a, contents, frame.value), Resolved)
    else if write && !vm.segs[a] then (vm, Refused)
    else if frame == None then (vm, NoMemory)
    else (Alloc(vm, frame.value, Zeros(size)).(ptes := vm.ptes[a := Pte(frame.value, !vm.segs[a])]), Resolved)
  }

  // ----- operations -----

  datatype Op =
    | Map(a: At, write: bool)
    | Copy(dst: nat, src: nat, page: nat)
    | Load(a: At, off: nat, frame: Option<nat>)
    | Store(a: At, off: nat, b: byte, frame: Option<nat>)
    | Unmap(s: nat, start: nat, n: nat)

  datatype Reply = Done | Byte(b: byte) | Failed(fault: Fault)

  function Peek(vm: VM, f: nat, off: nat): byte {
    if f in vm.mem && off < |vm.mem[f]| then vm.mem[f][off] else 0
  }

  function Poke(vm: VM, f: nat, off: nat, b: byte): VM {
    if f in vm.mem && off < |vm.mem[f]| then
      var contents: seq<byte> := vm.mem[f][off := b];
      vm.(mem := vm.mem[f := contents])
    else vm
  }

  /** memory_map_mmap on one page: nothing is loaded yet. */
  function MapPage(vm: VM, a: At, write: bool): VM {
    vm.(segs := vm.segs[a := write], ptes := vm.ptes - {a})
  }

  /** mmu_table_copy on one page of a segment: share it, write-protecting both sides if the segment is writable. */
  function CopyPage(vm: VM, dst: nat, src: nat, page: nat): VM
    requires At(src, page) in vm.segs
  {
    var s, d := At(src, page), At(dst, page);
    var vm1 := vm.(segs := vm.segs[d := vm.segs[s]]);
    if s in vm.ptes then
      var pte := vm.ptes[s].(writeProtect := vm.ptes[s].writeProtect || vm.segs[s]);
      MakeRef(vm1.(ptes := vm.ptes[d := pte][s := pte]), pte.frame)
    else vm1.(ptes := vm.ptes - {d})
  }

  /** The unmap branch of mmu_table_map on one page, and the end of its segment there. */
  function UnmapPage(vm: VM, a: At): VM {
    var vm1 := vm.(segs := vm.segs - {a}, ptes := vm.ptes - {a});
    if a in vm.ptes then Free(vm1, vm.ptes[a].frame) else vm1
  }

  function UnmapPages(vm: VM, s: nat, start: nat, n: nat): VM
    decreases n
  {
    if n == 0 then vm else UnmapPages(UnmapPage(vm, At(s, start)), s, start + 1, n - 1)
  }

  /** Pages [start, start + n) of an address space. */
  function Range(s: nat, start: nat, n: nat): set<At> {
    set p | start <= p < start + n :: At(s, p)
  }

  /**
   memory_map_unmap of what the range takes of one segment. The page tables are
   left alone if that begins at address 0, which stands for nothing to unmap.
   */
  function UnmapPiece(vm: VM, s: nat, start: nat, n: nat): VM {
    if start == 0 then vm.(segs := vm.segs - Range(s, start, n)) else UnmapPages(vm, s, start, n)
  }

  /** A user access faults on an unloaded page, and a store also on a protected one, and is tried again once the
      fault is resolved. */
  function Step(vm: VM, size: nat, op: Op): (VM, Reply)
    requires Legal(vm, op)
  {
    match op
    case Map(a, write) => (MapPage(vm, a, write), Done)
    case Copy(dst, src, page) => (CopyPage(vm, dst, src, page), Done)
    case Unmap(s, start, n) => (UnmapPiece(vm, s, start, n), Done)
    case Load(a, off, frame) =>
      var (vm1, fault) := if a in vm.ptes then (vm, Resolved) else LoadPageAt(vm, size, a, false, frame);
      if fault == Resolved && a in vm1.ptes then (vm1, Byte(Peek(vm1, vm1.ptes[a].frame, off)))
         else (vm1, Failed(fault))
    case Store(a, off, b, frame) =>
      var (vm1, fault) := if a in vm.ptes && !vm.ptes[a].writeProtect then (vm, Resolved)
        else LoadPageAt(vm, size, a, true, frame);
      if fault == Resolved && a in vm1.ptes then (Poke(vm1, vm1.ptes[a].frame, off, b), Done) else (vm1, Failed(fault))
  }

  /** What the kernel sees to: a range is mapped or copied into a gap, unmapped from a segment, and page_alloc
      returns an unused frame. */
  predicate Legal(vm: VM, op: Op) {
    match op
    case Map(a, _) => a !in vm.segs
    case Copy(dst, src, page) => dst != src && At(src, page) in vm.segs && At(dst, page) !in vm.segs
    case Load(_, _, frame) => frame.Some? ==> frame.value !in vm.refs
    case Store(_, _, _, frame) => frame.Some? ==> frame.value !in vm.refs
    case Unmap(s, start, n) => forall p :: start <= p < start + n ==> At(s, p) in vm.segs
  }

  // ----- the machine without sharing -----

  /** A page that is always there: zeros when mapped, copied whole when forked. */
  datatype Flat = Flat(bytes: seq<byte>, write: bool)

  type Eager = map<At, Flat>

  function EagerStep(e: Eager, size: nat, op: Op): (Eager, Reply)
    requires op.Copy? ==> At(op.src, op.page) in e
  {
    match op
    case Map(a, write) => (e[a := Flat(Zeros(size), write)], Done)
    case Copy(dst, src, page) => (e[At(dst, page) := e[At(src, page)]], Done)
    case Unmap(s, start, n) => (e - Range(s, start, n), Done)
    case Load(a, off, _) =>
      if a !in e then (e, Failed(Refused)) else (e, Byte(if off < |e[a].bytes| then e[a].bytes[off] else 0))
    case Store(a, off, b, _) =>
      if a !in e || !e[a].write then (e, Failed(Refused))
      else if off < |e[a].bytes| then
        var bytes: seq<byte> := e[a].bytes[off := b];
        (e[a := Flat(bytes, true)], Done)
      else (e, Done)
  }

  // ----- the invariant and the abstraction -----

  /** The descriptors that name page frame `f`. */
  ghost function Owners(ptes: map<At, Pte>, f: nat): set<At> {
    set a | a in ptes && ptes[a].frame == f
  }

  ghost predicate FrameOk(vm: VM, f: nat)
    requires f in vm.refs
  {
    1 <= vm.refs[f] <= REFCOUNT_MAX && vm.refs[f] == |Owners(vm.ptes, f)|
  }

  ghost predicate PteOk(vm: VM, a: At)
    requires a in vm.ptes
  {
    && a in vm.segs
    && vm.ptes[a].frame in vm.refs
    && (!vm.ptes[a].writeProtect ==> vm.refs[vm.ptes[a].frame] == 1 && vm.segs[a])
  }

  /**
   A page's count is the number of descriptors that name it, and a descriptor
   that lets writes through names a page of count 1.
   */
  ghost predicate Inv(vm: VM, size: nat) {
    && vm.mem.Keys == vm.refs.Keys
    && (forall f :: f in vm.mem ==> |vm.mem[f]| == size)
    && (forall f :: f in vm.refs ==> FrameOk(vm, f))
    && (forall a :: a in vm.ptes ==> PteOk(vm, a))
  }

  ghost function PageView(vm: VM, size: nat, a: At): Flat
    requires a in vm.segs
  {
    Flat(if a in vm.ptes && vm.ptes[a].frame in vm.mem then vm.mem[vm.ptes[a].frame] else Zeros(size), vm.segs[a])
  }

  /** The eager machine `e` shows what the sharing machine `vm` would. */
  ghost predicate Shows(vm: VM, size: nat, e: Eager) {
    e.Keys == vm.segs.Keys && forall a :: a in e ==> e[a] == PageView(vm, size, a)
  }

  // ----- counting owners -----

  lemma CardChange(o: set<At>, a: At)
    ensures |o + {a}| == |o| + (if a in o then 0 else 1)
    ensures |o - {a}| == |o| - (if a in o then 1 else 0)
  {
    if a in o {
      assert o + {a} == o;
    } else {
      assert o - {a} == o;
    }
  }

  /** How pointing one descriptor elsewhere changes the count of frame `f`. */
  lemma OwnersSet(ptes: map<At, Pte>, a: At, pte: Pte, f: nat)
    ensures |Owners(ptes[a := pte], f)|
            == |Owners(ptes, f)| + (if pte.frame == f then 1 else 0) - (if a in Owners(ptes, f) then 1 else 0)
  {
    var o := Owners(ptes, f);
    assert Owners(ptes[a := pte], f) == if pte.frame == f then o + {a} else o - {a};
    CardChange(o, a);
  }

  lemma OwnersDrop(ptes: map<At, Pte>, a: At, f: nat)
    ensures |Owners(ptes - {a}, f)| == |Owners(ptes, f)| - (if a in Owners(ptes, f) then 1 else 0)
  {
    assert Owners(ptes - {a}, f) == Owners(ptes, f) - {a};
    CardChange(Owners(ptes, f), a);
  }

  lemma UnusedFrame(vm: VM, size: nat, f: nat)
    requires Inv(vm, size) && f !in vm.refs
    ensures Owners(vm.ptes, f) == {}
  {
    assert forall a :: a in vm.ptes ==> PteOk(vm, a);
  }

  /** Two descriptors of one frame make its count at least 2, so a writable descriptor is alone. */
  lemma TwoOwners(vm: VM, size: nat, a: At, a': At)
    requires Inv(vm, size) && a in vm.ptes && a' in vm.ptes && a != a' && vm.ptes[a].frame == vm.ptes[a'].frame
    ensures vm.ptes[a].frame in vm.refs && vm.refs[vm.ptes[a].frame] >= 2
    ensures vm.ptes[a].writeProtect && vm.ptes[a'].writeProtect
  {
    assert PteOk(vm, a) && PteOk(vm, a');
    var f := vm.ptes[a].frame;
    assert FrameOk(vm, f);
    var o := Owners(vm.ptes, f);
    assert a' in o - {a};
    CardChange(o, a);
  }

  lemma FreeExact(vm: VM, f: nat)
    requires f in vm.refs && 1 <= vm.refs[f] <= REFCOUNT_MAX
    ensures Free(vm, f) == if vm.refs[f] == 1 then vm.(mem := vm.mem - {f}, refs := vm.refs - {f})
            else vm.(refs := vm.refs[f := vm.refs[f] - 1])
  {
  }

  // ----- page faults change no view -----

  /** Descriptor `a` now names the fresh frame `f`, and the frame it named before has been freed. */
  ghost predicate Repointed(vm: VM, vm': VM, a: At, f: nat, wp: bool) {
    && f !in vm.refs && f in vm'.mem
    && vm'.segs == vm.segs && vm'.ptes == vm.ptes[a := Pte(f, wp)]
    && (forall g :: g in vm'.mem && g != f ==> g in vm.mem && vm'.mem[g] == vm.mem[g])
    && vm'.refs == var refs := vm.refs[f := 1];
         if a !in vm.ptes then refs
         else
           var g := vm.ptes[a].frame;
           if g in vm.refs && vm.refs[g] > 1 then refs[g := vm.refs[g] - 1] else refs - {g}
  }

  lemma RepointFrame(vm: VM, vm': VM, size: nat, a: At, f: nat, wp: bool, g: nat)
    requires Inv(vm, size) && Repointed(vm, vm', a, f, wp) && g in vm'.refs
    ensures FrameOk(vm', g)
  {
    UnusedFrame(vm, size, f);
    OwnersSet(vm.ptes, a, Pte(f, wp), g);
    assert a in vm.ptes ==> PteOk(vm, a);
    assert g != f ==> FrameOk(vm, g);
  }

  lemma RepointPte(vm: VM, vm': VM, size: nat, a: At, f: nat, wp: bool, b: At)
    requires Inv(vm, size) && Repointed(vm, vm', a, f, wp) && a in vm.segs && (!wp ==> vm.segs[a]) && b in vm'.ptes
    ensures PteOk(vm', b)
  {
    assert a in vm.ptes ==> PteOk(vm, a);
    if b != a {
      assert PteOk(vm, b);
      if a in vm.ptes && vm.ptes[b].frame == vm.ptes[a].frame {
        TwoOwners(vm, size, a, b);
      }
    }
  }

  lemma RepointInv(vm: VM, vm': VM, size: nat, a: At, f: nat, wp: bool)
    requires Inv(vm, size) && Repointed(vm, vm', a, f, wp) && a in vm.segs && (!wp ==> vm.segs[a])
    requires vm'.mem.Keys == vm'.refs.Keys && |vm'.mem[f]| == size
    ensures Inv(vm', size)
  {
    forall g | g in vm'.refs
      ensures FrameOk(vm', g)
    {
      RepointFrame(vm, vm', size, a, f, wp, g);
    }
    forall b | b in vm'.ptes
      ensures PteOk(vm', b)
    {
      RepointPte(vm, vm', size, a, f, wp, b);
    }
  }

  lemma RepointRefines(vm: VM, vm': VM, size: nat, a: At, f: nat, wp: bool)
    requires Inv(vm, size) && Repointed(vm, vm', a, f, wp) && a in vm.segs && (!wp ==> vm.segs[a])
    requires vm'.mem.Keys == vm'.refs.Keys && vm'.mem[f] == PageView(vm, size, a).bytes
    ensures Inv(vm', size) && forall b :: b in vm.segs ==> PageView(vm', size, b) == PageView(vm, size, b)
  {
    assert a in vm.ptes ==> PteOk(vm, a);
    RepointInv(vm, vm', size, a, f, wp);
    RepointOthers(vm, vm', size, a, f, wp);
  }

  lemma RepointOthers(vm: VM, vm': VM, size: nat, a: At, f: nat, wp: bool)
    requires Inv(vm, size) && Inv(vm', size) && Repointed(vm, vm', a, f, wp)
    ensures forall b :: b in vm.segs && b != a ==> PageView(vm', size, b) == PageView(vm, size, b)
  {
    forall b | b in vm.segs && b != a
      ensures PageView(vm', size, b) == PageView(vm, size, b)
    {
      if b in vm.ptes {
        assert PteOk(vm, b) && PteOk(vm', b);
      }
    }
  }

  lemma FaultRepoints(vm: VM, size: nat, a: At, write: bool, f: nat)
    requires Inv(vm, size) && f !in vm.refs && LoadPageAt(vm, size, a, write, Some(f)).1 == Resolved
    ensures var vm' := LoadPageAt(vm, size, a, write, Some(f)).0;
            var wp := a !in vm.ptes && a.page > 1 && !vm.segs[a];
            && Repointed(vm, vm', a, f, wp) && vm'.mem.Keys == vm'.refs.Keys && (!wp ==> vm.segs[a])
            && vm'.mem[f] == if a !in vm.ptes && a.page <= 1 then vm.low else PageView(vm, size, a).bytes
  {
    if a in vm.ptes {
      assert PteOk(vm, a);
      var g := vm.ptes[a].frame;
      assert FrameOk(vm, g);
      FreeExact(Alloc(vm, f, vm.mem[g]).(ptes := vm.ptes[a := Pte(f, false)]), g);
    }
  }

  /** memory_map_load_page_at keeps the invariant and every view; after a resolved write fault the page takes writes. */
  lemma FaultRefines(vm: VM, size: nat, a: At, write: bool, frame: Option<nat>)
    requires Inv(vm, size) && (frame.Some? ==> frame.value !in vm.refs)
    requires a in vm.segs && a !in vm.ptes ==> a.page >= 2
    ensures var (vm', fault) := LoadPageAt(vm, size, a, write, frame);
            && Inv(vm', size) && vm'.segs == vm.segs
            && (forall b :: b in vm.segs ==> PageView(vm', size, b) == PageView(vm, size, b))
            && (fault == Refused <==> a !in vm.segs || (write && !vm.segs[a]) || (a in vm.ptes && !write))
            && (fault == NoMemory ==> frame == None)
            && (fault == Resolved ==> a in vm'.ptes && (write ==> !vm'.ptes[a].writeProtect))
  {
    var (vm', fault) := LoadPageAt(vm, size, a, write, frame);
    if fault == Resolved {
      FaultRepoints(vm, size, a, write, frame.value);
      RepointRefines(vm, vm', size, a, frame.value, a !in vm.ptes && !vm.segs[a]);
    }
  }

  // ----- fork, unmap and store -----

  lemma CopyFrame(vm: VM, vm': VM, size: nat, dst: nat, src: nat, page: nat, f: nat)
    requires Inv(vm, size) && Legal(vm, Copy(dst, src, page)) && Safe(vm, Copy(dst, src, page))
    requires vm' == CopyPage(vm, dst, src, page) && f in vm'.refs
    ensures FrameOk(vm', f)
  {
    var s, d := At(src, page), At(dst, page);
    assert d in vm.ptes ==> PteOk(vm, d);
    assert FrameOk(vm, f);
    if s in vm.ptes {
      var pte := vm'.ptes[s];
      OwnersSet(vm.ptes, d, pte, f);
      OwnersSet(vm.ptes[d := pte], s, pte, f);
    } else {
      OwnersDrop(vm.ptes, d, f);
    }
  }

  lemma CopyPte(vm: VM, vm': VM, size: nat, dst: nat, src: nat, page: nat, b: At)
    requires Inv(vm, size) && Legal(vm, Copy(dst, src, page)) && vm' == CopyPage(vm, dst, src, page) && b in vm'.ptes
    ensures PteOk(vm', b)
  {
    var s := At(src, page);
    assert s in vm.ptes ==> PteOk(vm, s);
    if b in vm.ptes {
      assert PteOk(vm, b);
      if b != s && s in vm.ptes && vm.ptes[b].frame == vm.ptes[s].frame {
        TwoOwners(vm, size, b, s);
      }
    }
  }

  lemma CopyInv(vm: VM, vm': VM, size: nat, dst: nat, src: nat, page: nat)
    requires Inv(vm, size) && Legal(vm, Copy(dst, src, page)) && Safe(vm, Copy(dst, src, page))
    requires vm' == CopyPage(vm, dst, src, page)
    ensures Inv(vm', size)
  {
    forall f | f in vm'.refs
      ensures FrameOk(vm', f)
    {
      CopyFrame(vm, vm', size, dst, src, page, f);
    }
    forall b | b in vm'.ptes
      ensures PteOk(vm', b)
    {
      CopyPte(vm, vm', size, dst, src, page, b);
    }
  }

  /** Sharing a page at fork looks the same as copying it. */
  lemma CopyView(vm: VM, vm': VM, size: nat, dst: nat, src: nat, page: nat, b: At)
    requires Inv(vm, size) && Legal(vm, Copy(dst, src, page)) && vm' == CopyPage(vm, dst, src, page) && b in vm'.segs
    ensures var b' := if b == At(dst, page) then At(src, page) else b;
            b' in vm.segs && PageView(vm', size, b) == PageView(vm, size, b')
  {
    assert At(dst, page) in vm.ptes ==> PteOk(vm, At(dst, page));
  }

  lemma CopyShows(vm: VM, vm': VM, size: nat, e: Eager, e': Eager, dst: nat, src: nat, page: nat)
    requires Inv(vm, size) && Shows(vm, size, e) && Legal(vm, Copy(dst, src, page))
    requires vm' == CopyPage(vm, dst, src, page)
    requires e' == e[At(dst, page) := e[At(src, page)]]
    ensures Shows(vm', size, e')
  {
    forall b | b in e'
      ensures e'[b] == PageView(vm', size, b)
    {
      CopyView(vm, vm', size, dst, src, page, b);
    }
  }

  lemma CopyRefines(vm: VM, size: nat, e: Eager, dst: nat, src: nat, page: nat)
    requires Inv(vm, size) && Shows(vm, size, e) && Legal(vm, Copy(dst, src, page)) && Safe(vm, Copy(dst, src, page))
    ensures StepShown(vm, size, e, Copy(dst, src, page))
  {
    CopyInv(vm, CopyPage(vm, dst, src, page), size, dst, src, page);
    CopyShows(vm, CopyPage(vm, dst, src, page), size, e, e[At(dst, page) := e[At(src, page)]], dst, src, page);
  }

  /** Page `a` and its descriptor are gone, and its frame, if any, has been freed. */
  ghost predicate Unmapped(vm: VM, vm': VM, a: At) {
    && vm'.segs == vm.segs - {a} && vm'.ptes == vm.ptes - {a}
    && (forall g :: g in vm'.mem ==> g in vm.mem && vm'.mem[g] == vm.mem[g])
    && vm'.refs == if a !in vm.ptes then vm.refs
                   else
                     var g := vm.ptes[a].frame;
                     if g in vm.refs && vm.refs[g] > 1 then vm.refs[g := vm.refs[g] - 1] else vm.refs - {g}
  }

  lemma UnmapUnmaps(vm: VM, size: nat, a: At)
    requires Inv(vm, size)
    ensures Unmapped(vm, UnmapPage(vm, a), a) && UnmapPage(vm, a).mem.Keys == UnmapPage(vm, a).refs.Keys
  {
    if a in vm.ptes {
      assert PteOk(vm, a);
      assert FrameOk(vm, vm.ptes[a].frame);
      FreeExact(vm.(segs := vm.segs - {a}, ptes := vm.ptes - {a}), vm.ptes[a].frame);
    }
  }

  lemma UnmapInv(vm: VM, vm': VM, size: nat, a: At)
    requires Inv(vm, size) && Unmapped(vm, vm', a) && vm'.mem.Keys == vm'.refs.Keys
    ensures Inv(vm', size)
  {
    assert a in vm.ptes ==> PteOk(vm, a);
    forall f | f in vm'.refs
      ensures FrameOk(vm', f)
    {
      assert FrameOk(vm, f);
      OwnersDrop(vm.ptes, a, f);
    }
    forall b | b in vm'.ptes
      ensures PteOk(vm', b)
    {
      assert PteOk(vm, b);
      if a in vm.ptes && vm.ptes[b].frame == vm.ptes[a].frame {
        TwoOwners(vm, size, a, b);
      }
    }
  }

  lemma UnmapShows(vm: VM, vm': VM, size: nat, e: Eager, a: At)
    requires Inv(vm, size) && Shows(vm, size, e) && Unmapped(vm, vm', a) && Inv(vm', size)
    ensures Shows(vm', size, e - {a})
  {
    forall b | b in vm'.segs
      ensures PageView(vm', size, b) == PageView(vm, size, b)
    {
      if b in vm'.ptes {
        assert PteOk(vm, b) && PteOk(vm', b);
      }
    }
  }

  lemma {:induction false} UnmapPagesRefines(vm: VM, size: nat, e: Eager, s: nat, start: nat, n: nat)
    requires Inv(vm, size) && Shows(vm, size, e)
    ensures Inv(UnmapPages(vm, s, start, n), size)
    ensures Shows(UnmapPages(vm, s, start, n), size, e - Range(s, start, n))
    decreases n
  {
    if n == 0 {
      assert e - Range(s, start, n) == e;
    } else {
      var a := At(s, start);
      var vm' := UnmapPage(vm, a);
      UnmapUnmaps(vm, size, a);
      UnmapInv(vm, vm', size, a);
      UnmapShows(vm, vm', size, e, a);
      UnmapPagesRefines(vm', size, e - {a}, s, start + 1, n - 1);
      RangeFirst(s, start, n);
      assert e - {a} - Range(s, start + 1, n - 1) == e - Range(s, start, n);
    }
  }

  lemma RangeFirst(s: nat, start: nat, n: nat)
    requires n > 0
    ensures Range(s, start, n) == {At(s, start)} + Range(s, start + 1, n - 1)
  {
  }

  /** With nothing loaded there is nothing to do in the page tables. */
  lemma UnloadedUnmaps(vm: VM, size: nat, e: Eager, s: nat, n: nat)
    requires Inv(vm, size) && Shows(vm, size, e) && forall p :: 0 <= p < n ==> At(s, p) !in vm.ptes
    ensures Inv(UnmapPiece(vm, s, 0, n), size) && Shows(UnmapPiece(vm, s, 0, n), size, e - Range(s, 0, n))
  {
    var vm' := UnmapPiece(vm, s, 0, n);
    forall f | f in vm'.refs
      ensures FrameOk(vm', f)
    {
      assert FrameOk(vm, f);
    }
    forall a | a in vm'.ptes
      ensures PteOk(vm', a)
    {
      assert PteOk(vm, a);
    }
  }

  lemma PokeInv(vm: VM, vm': VM, size: nat, f: nat, off: nat, b: byte)
    requires Inv(vm, size) && vm' == Poke(vm, f, off, b)
    ensures Inv(vm', size)
  {
    assert forall g :: g in vm'.refs ==> FrameOk(vm, g);
    assert forall c :: c in vm'.ptes ==> PteOk(vm, c);
  }

  /** A store through an unprotected descriptor is seen by its own address space alone. */
  lemma PokeView(vm: VM, vm': VM, size: nat, a: At, off: nat, b: byte, c: At)
    requires Inv(vm, size) && a in vm.ptes && !vm.ptes[a].writeProtect && vm' == Poke(vm, vm.ptes[a].frame, off, b)
    requires c in vm.segs
    ensures c != a ==> PageView(vm', size, c) == PageView(vm, size, c)
    ensures a in vm.segs
    ensures PageView(vm', size, a) == EagerStep(map[a := PageView(vm, size, a)], size, Store(a, off, b, None)).0[a]
  {
    assert PteOk(vm, a);
    if c != a && c in vm.ptes && vm.ptes[c].frame == vm.ptes[a].frame {
      TwoOwners(vm, size, a, c);
    }
  }

  lemma PokeRefines(vm: VM, vm': VM, size: nat, e: Eager, a: At, off: nat, b: byte, frame: Option<nat>)
    requires Inv(vm, size) && Shows(vm, size, e) && a in vm.ptes && !vm.ptes[a].writeProtect
    requires vm' == Poke(vm, vm.ptes[a].frame, off, b)
    ensures Inv(vm', size) && Shows(vm', size, EagerStep(e, size, Store(a, off, b, frame)).0)
    ensures EagerStep(e, size, Store(a, off, b, frame)).1 == Done
  {
    assert PteOk(vm, a);
    PokeInv(vm, vm', size, vm.ptes[a].frame, off, b);
    forall c | c in vm.segs
      ensures c != a ==> PageView(vm', size, c) == PageView(vm, size, c)
    {
      PokeView(vm, vm', size, a, off, b, c);
    }
    PokeView(vm, vm', size, a, off, b, a);
  }

  // ----- every step, every run -----

  /**
   The counts fit their 16 bits, no page at or below address PAGE_SIZE is
   touched before it is loaded, and what is unmapped from address 0 on is not
   loaded.
   */
  ghost predicate Safe(vm: VM, op: Op) {
    match op
    case Copy(dst, src, page) =>
      var s := At(src, page);
      s in vm.ptes && vm.ptes[s].frame in vm.refs ==> vm.refs[vm.ptes[s].frame] < REFCOUNT_MAX
    case Load(a, _, _) => a in vm.segs && a !in vm.ptes ==> a.page >= 2
    case Store(a, _, _, _) => a in vm.segs && a !in vm.ptes ==> a.page >= 2
    case Unmap(s, start, n) => start > 0 || forall p :: 0 <= p < n ==> At(s, p) !in vm.ptes
    case Map(_, _) => true
  }

  /** One step answers as the eager machine does; one that runs out of page frames changes nothing that can be seen. */
  ghost predicate StepShown(vm: VM, size: nat, e: Eager, op: Op)
    requires Legal(vm, op)
  {
    var (vm', r) := Step(vm, size, op);
    && Inv(vm', size)
    && (op.Copy? ==> At(op.src, op.page) in e)
    && if r == Failed(NoMemory) then Shows(vm', size, e)
    else Shows(vm', size, EagerStep(e, size, op).0) && r == EagerStep(e, size, op).1
  }

  lemma MapRefines(vm: VM, size: nat, e: Eager, a: At, write: bool)
    requires Inv(vm, size) && Shows(vm, size, e) && a !in vm.segs
    ensures StepShown(vm, size, e, Map(a, write))
  {
    var vm' := Step(vm, size, Map(a, write)).0;
    assert a in vm.ptes ==> PteOk(vm, a);
    forall f | f in vm'.refs
      ensures FrameOk(vm', f)
    {
      assert FrameOk(vm, f);
      OwnersDrop(vm.ptes, a, f);
    }
    forall b | b in vm'.ptes
      ensures PteOk(vm', b)
    {
      assert PteOk(vm, b);
    }
  }

  lemma LoadRefines(vm: VM, size: nat, e: Eager, a: At, off: nat, frame: Option<nat>)
    requires Inv(vm, size) && Shows(vm, size, e) && Legal(vm, Load(a, off, frame)) && Safe(vm, Load(a, off, frame))
    ensures StepShown(vm, size, e, Load(a, off, frame))
  {
    if a in vm.ptes {
      assert PteOk(vm, a);
    } else {
      FaultRefines(vm, size, a, false, frame);
      var vm1 := LoadPageAt(vm, size, a, false, frame).0;
      assert a in vm1.ptes ==> PteOk(vm1, a);
    }
  }

  lemma StoreRefines(vm: VM, size: nat, e: Eager, a: At, off: nat, b: byte, frame: Option<nat>)
    requires Inv(vm, size) && Shows(vm, size, e) && Legal(vm, Store(a, off, b, frame))
    requires Safe(vm, Store(a, off, b, frame))
    ensures StepShown(vm, size, e, Store(a, off, b, frame))
  {
    if a in vm.ptes && !vm.ptes[a].writeProtect {
      PokeRefines(vm, Step(vm, size, Store(a, off, b, frame)).0, size, e, a, off, b, frame);
    } else {
      FaultRefines(vm, size, a, true, frame);
      var (vm1, fault) := LoadPageAt(vm, size, a, true, frame);
      if fault == Resolved {
        PokeRefines(vm1, Step(vm, size, Store(a, off, b, frame)).0, size, e, a, off, b, frame);
      }
    }
  }

  /** Unmapping part of a segment goes right if and only if that does not begin at address 0, or none of it is
      loaded. */
  lemma UnmapShownIff(vm: VM, size: nat, e: Eager, s: nat, start: nat, n: nat)
    requires Inv(vm, size) && Shows(vm, size, e) && Legal(vm, Unmap(s, start, n))
    ensures StepShown(vm, size, e, Unmap(s, start, n)) <==> Safe(vm, Unmap(s, start, n))
  {
    if start > 0 {
      UnmapPagesRefines(vm, size, e, s, start, n);
    } else if forall p :: 0 <= p < n ==> At(s, p) !in vm.ptes {
      UnloadedUnmaps(vm, size, e, s, n);
    } else {
      var p :| 0 <= p < n && At(s, p) in vm.ptes;
      var vm' := UnmapPiece(vm, s, start, n);
      assert At(s, p) in Range(s, 0, n) && At(s, p) !in vm'.segs;
      assert !PteOk(vm', At(s, p));
    }
  }

  /** A page loaded in such a piece can still be read after it was unmapped, where the eager machine refuses. */
  lemma ReadAfterUnmap(vm: VM, size: nat, e: Eager, s: nat, n: nat, p: nat, off: nat, frame: Option<nat>)
    requires Inv(vm, size) && Shows(vm, size, e) && Legal(vm, Unmap(s, 0, n)) && p < n && At(s, p) in vm.ptes
    requires Legal(Step(vm, size, Unmap(s, 0, n)).0, Load(At(s, p), off, frame))
    ensures Step(Step(vm, size, Unmap(s, 0, n)).0, size, Load(At(s, p), off, frame)).1.Byte?
    ensures EagerStep(EagerStep(e, size, Unmap(s, 0, n)).0, size, Load(At(s, p), off, frame)).1 == Failed(Refused)
  {
    assert At(s, p) in Range(s, 0, n);
  }

  lemma StepRefines(vm: VM, size: nat, e: Eager, op: Op)
    requires Inv(vm, size) && Shows(vm, size, e) && Legal(vm, op) && Safe(vm, op)
    ensures StepShown(vm, size, e, op)
  {
    match op
    case Map(a, write) => MapRefines(vm, size, e, a, write);
    case Copy(dst, src, page) => CopyRefines(vm, size, e, dst, src, page);
    case Load(a, off, frame) => LoadRefines(vm, size, e, a, off, frame);
    case Store(a, off, b, frame) => StoreRefines(vm, size, e, a, off, b, frame);
    case Unmap(s, start, n) => UnmapShownIff(vm, size, e, s, start, n);
  }

  /** A run each of whose steps is legal and safe where it is taken. */
  ghost predicate Runs(vm: VM, size: nat, ops: seq<Op>)
    decreases |ops|
  {
    ops == [] || (Legal(vm, ops[0]) && Safe(vm, ops[0]) && Runs(Step(vm, size, ops[0]).0, size, ops[1..]))
  }

  ghost function After(vm: VM, size: nat, ops: seq<Op>): VM
    requires Runs(vm, size, ops)
    decreases |ops|
  {
    if ops == [] then vm else After(Step(vm, size, ops[0]).0, size, ops[1..])
  }

  ghost function Replies(vm: VM, size: nat, ops: seq<Op>): seq<Reply>
    requires Runs(vm, size, ops)
    decreases |ops|
  {
    if ops == [] then [] else [Step(vm, size, ops[0]).1] + Replies(Step(vm, size, ops[0]).0, size, ops[1..])
  }

  /** The eager machine's run of the same operations, skipping those that the sharing machine had no memory for. */
  ghost function EagerRun(e: Eager, size: nat, ops: seq<Op>, given: seq<Reply>): (Eager, seq<Reply>)
    requires |given| == |ops|
    decreases |ops|
  {
    if ops == [] then (e, [])
    else
      var skip := given[0] == Failed(NoMemory) || (ops[0].Copy? && At(ops[0].src, ops[0].page) !in e);
      var (e', r) := if skip then (e, given[0]) else EagerStep(e, size, ops[0]);
      var (last, rest) := EagerRun(e', size, ops[1..], given[1..]);
      (last, [r] + rest)
  }

  /** Over every run, lazily shared memory answers every load and store as memory that is never shared, and ends
      up showing the same. */
  lemma {:induction false} RunRefines(vm: VM, size: nat, e: Eager, ops: seq<Op>)
    requires Inv(vm, size) && Shows(vm, size, e) && Runs(vm, size, ops)
    ensures |Replies(vm, size, ops)| == |ops|
    ensures var (e', replies) := EagerRun(e, size, ops, Replies(vm, size, ops));
            Replies(vm, size, ops) == replies && Inv(After(vm, size, ops), size)
              && Shows(After(vm, size, ops), size, e')
    decreases |ops|
  {
    if ops != [] {
      StepRefines(vm, size, e, ops[0]);
      var (vm', r) := Step(vm, size, ops[0]);
      var e' := if r == Failed(NoMemory) then e else EagerStep(e, size, ops[0]).0;
      RunRefines(vm', size, e', ops[1..]);
      assert Replies(vm, size, ops)[1..] == Replies(vm', size, ops[1..]);
    }
  }

  /** The same from power-on, when nothing is mapped yet. */
  lemma EveryRunRefines(low: seq<byte>, size: nat, ops: seq<Op>)
    requires Runs(VM(map[], map[], map[], map[], low), size, ops)
    ensures var given := Replies(VM(map[], map[], map[], map[], low), size, ops);
            |given| == |ops| && given == EagerRun(map[], size, ops, given).1
  {
    RunRefines(VM(map[], map[], map[], map[], low), size, map[], ops);
  }

  // ----- where the refinement ends -----

  /** A fork keeps the counts right exactly when none of them overflows its 16 bits. */
  lemma CopyKeepsInvIff(vm: VM, size: nat, dst: nat, src: nat, page: nat)
    requires Inv(vm, size) && Legal(vm, Copy(dst, src, page))
    ensures Inv(CopyPage(vm, dst, src, page), size) <==> Safe(vm, Copy(dst, src, page))
  {
    var s := At(src, page);
    if Safe(vm, Copy(dst, src, page)) {
      CopyInv(vm, CopyPage(vm, dst, src, page), size, dst, src, page);
    } else {
      assert FrameOk(vm, vm.ptes[s].frame);
      assert !FrameOk(CopyPage(vm, dst, src, page), vm.ptes[s].frame);
    }
  }

  lemma RepointShows(vm: VM, vm1: VM, size: nat, e: Eager, e1: Eager, a: At, f: nat, contents: seq<byte>)
    requires Inv(vm, size) && Shows(vm, size, e) && Repointed(vm, vm1, a, f, false) && Inv(vm1, size)
    requires a in vm.segs && vm.segs[a] && vm1.mem[f] == contents && e1 == e[a := Flat(contents, true)]
    ensures Shows(vm1, size, e1)
  {
    RepointOthers(vm, vm1, size, a, f, false);
    assert PageView(vm1, size, a) == Flat(contents, true);
  }

  /** A page at or below PAGE_SIZE that is written before it is loaded starts as a copy of physical address 0. */
  lemma LowStore(vm: VM, vm1: VM, vm': VM, size: nat, e: Eager, a: At, off: nat, b: byte, f: nat)
    requires Inv(vm, size) && Shows(vm, size, e) && |vm.low| == size && off < size && a in vm.segs && vm.segs[a]
    requires Repointed(vm, vm1, a, f, false) && vm1.mem.Keys == vm1.refs.Keys && vm1.mem[f] == vm.low
    requires vm' == Poke(vm1, f, off, b)
    ensures Inv(vm', size) && Shows(vm', size, e[a := Flat(vm.low[off := b], true)])
  {
    var e1 := e[a := Flat(vm.low, true)];
    RepointInv(vm, vm1, size, a, f, false);
    RepointShows(vm, vm1, size, e, e1, a, f, vm.low);
    hide Shows, Inv, PageView;
    PokeFlat(vm1, vm', size, e1, a, off, b, vm.low);
    assert e1[a := Flat(vm.low[off := b], true)] == e[a := Flat(vm.low[off := b], true)];
  }

  lemma PokeFlat(vm: VM, vm': VM, size: nat, e: Eager, a: At, off: nat, b: byte, bytes: seq<byte>)
    requires Inv(vm, size) && Shows(vm, size, e) && a in vm.ptes && !vm.ptes[a].writeProtect
    requires vm' == Poke(vm, vm.ptes[a].frame, off, b) && off < |bytes| && a in e && e[a] == Flat(bytes, true)
    ensures Inv(vm', size) && Shows(vm', size, e[a := Flat(bytes[off := b], true)])
  {
    hide Shows, Inv, Poke;
    PokeRefines(vm, vm', size, e, a, off, b, None);
  }

  /** A load from an unloaded page at or below PAGE_SIZE is refused, where the eager machine reads a zero. */
  lemma LowLoad(vm: VM, size: nat, e: Eager, a: At, off: nat, frame: Option<nat>)
    requires Shows(vm, size, e) && Legal(vm, Load(a, off, frame))
    requires a in vm.segs && a !in vm.ptes && a.page <= 1
    ensures !StepShown(vm, size, e, Load(a, off, frame))
  {
  }

  /** A store to such a page goes right exactly if the byte written hides all that tells physical address 0 from
      a page of zeros. */
  lemma LowStoreIff(vm: VM, size: nat, e: Eager, a: At, off: nat, b: byte, f: nat)
    requires Inv(vm, size) && Shows(vm, size, e) && f !in vm.refs && |vm.low| == size && off < size
    requires a in vm.segs && a !in vm.ptes && vm.segs[a] && a.page <= 1
    ensures StepShown(vm, size, e, Store(a, off, b, Some(f))) <==> vm.low[off := b] == Zeros(size)[off := b]
  {
    var op := Store(a, off, b, Some(f));
    var vm' := Step(vm, size, op).0;
    assert EagerStep(e, size, op) == (e[a := Flat(Zeros(size)[off := b], true)], Done);
    assert Inv(vm', size) && Shows(vm', size, e[a := Flat(vm.low[off := b], true)]) by {
      FaultRepoints(vm, size, a, true, f);
      LowStore(vm, LoadPageAt(vm, size, a, true, Some(f)).0, vm', size, e, a, off, b, f);
    }
  }

  // ----- the kernel's own loops -----

  /** The pages are all in segments of `src` and in none of `dst`. */
  predicate Copyable(vm: VM, dst: nat, src: nat, start: nat, n: nat) {
    dst != src && forall p :: start <= p < start + n ==> At(src, p) in vm.segs && At(dst, p) !in vm.segs
  }

  function CopyPages(vm: VM, dst: nat, src: nat, start: nat, n: nat): VM
    requires Copyable(vm, dst, src, start, n)
    decreases n
  {
    if n == 0 then vm else CopyPages(CopyPage(vm, dst, src, start), dst, src, start + 1, n - 1)
  }

  function CopyOps(dst: nat, src: nat, start: nat, n: nat): seq<Op>
    decreases n
  {
    if n == 0 then [] else [Copy(dst, src, start)] + CopyOps(dst, src, start + 1, n - 1)
  }

  /** Which of pages [start, start + n) of an address space name page frame `f`. */
  function Naming(vm: VM, src: nat, start: nat, n: nat, f: nat): set<nat> {
    set p | start <= p < start + n && At(src, p) in vm.ptes && vm.ptes[At(src, p)].frame == f
  }

  /** Page frame `f` can take a reference more for each of these. */
  predicate FrameCountable(vm: VM, src: nat, start: nat, n: nat, f: nat) {
    f in vm.refs && Naming(vm, src, start, n, f) != {} ==>
      vm.refs[f] + |Naming(vm, src, start, n, f)| <= REFCOUNT_MAX
  }

  ghost predicate Countable(vm: VM, src: nat, start: nat, n: nat) {
    forall f: nat :: FrameCountable(vm, src, start, n, f)
  }

  lemma NamingFirst(vm: VM, src: nat, start: nat, n: nat, f: nat)
    requires n > 0
    ensures var rest := Naming(vm, src, start + 1, n - 1, f);
            Naming(vm, src, start, n, f)
            == (if At(src, start) in vm.ptes && vm.ptes[At(src, start)].frame == f then {start} else {}) + rest
            && start !in rest
  {
  }

  /** What the first page of a copy takes is not there for the others. */
  lemma FrameCounted(vm: VM, dst: nat, src: nat, start: nat, n: nat, f: nat)
    requires Copyable(vm, dst, src, start, n) && n > 0 && Safe(vm, Copy(dst, src, start))
    ensures FrameCountable(vm, src, start, n, f) <==>
            FrameCountable(CopyPage(vm, dst, src, start), src, start + 1, n - 1, f)
  {
    var vm' := CopyPage(vm, dst, src, start);
    NamingFirst(vm, src, start, n, f);
    assert Naming(vm', src, start + 1, n - 1, f) == Naming(vm, src, start + 1, n - 1, f);
  }

  /** fork's copy of a whole segment is a run of the machine if and only if 16 bits can count the pages it shares. */
  lemma {:induction false} CopyPagesRunIff(vm: VM, size: nat, dst: nat, src: nat, start: nat, n: nat)
    requires Copyable(vm, dst, src, start, n)
    ensures Runs(vm, size, CopyOps(dst, src, start, n)) <==> Countable(vm, src, start, n)
    ensures Runs(vm, size, CopyOps(dst, src, start, n)) ==>
            After(vm, size, CopyOps(dst, src, start, n)) == CopyPages(vm, dst, src, start, n)
    decreases n
  {
    if n > 0 {
      var vm' := CopyPage(vm, dst, src, start);
      var ops := CopyOps(dst, src, start, n);
      assert ops[1..] == CopyOps(dst, src, start + 1, n - 1);
      CopyPagesRunIff(vm', size, dst, src, start + 1, n - 1);
      if Safe(vm, ops[0]) {
        var next, left: nat := start + 1, n - 1;
        forall f: nat
          ensures FrameCountable(vm, src, start, n, f) <==> FrameCountable(vm', src, next, left, f)
        {
          FrameCounted(vm, dst, src, start, n, f);
        }
        assert Runs(vm, size, ops) <==> Runs(vm', size, ops[1..]);
      } else {
        var f := vm.ptes[At(src, start)].frame;
        NamingFirst(vm, src, start, n, f);
        assert start in Naming(vm, src, start, n, f) && !FrameCountable(vm, src, start, n, f);
      }
    }
  }

  function MapPages(vm: VM, s: nat, start: nat, n: nat, write: bool): VM
    decreases n
  {
    if n == 0 then vm else MapPages(MapPage(vm, At(s, start), write), s, start + 1, n - 1, write)
  }

  function MapOps(s: nat, start: nat, n: nat, write: bool): seq<Op>
    decreases n
  {
    if n == 0 then [] else [Map(At(s, start), write)] + MapOps(s, start + 1, n - 1, write)
  }

  /** The mapping of a whole segment in a gap is a run, too. */
  lemma {:induction false} MapPagesRun(vm: VM, size: nat, s: nat, start: nat, n: nat, write: bool)
    requires forall p :: start <= p < start + n ==> At(s, p) !in vm.segs
    ensures Runs(vm, size, MapOps(s, start, n, write))
    ensures After(vm, size, MapOps(s, start, n, write)) == MapPages(vm, s, start, n, write)
    decreases n
  {
    if n > 0 {
      MapPagesRun(MapPage(vm, At(s, start), write), size, s, start + 1, n - 1, write);
      assert MapOps(s, start, n, write)[1..] == MapOps(s, start + 1, n - 1, write);
    }
  }

  lemma {:induction false} MapPagesAre(vm: VM, s: nat, start: nat, n: nat, write: bool)
    ensures MapPages(vm, s, start, n, write)
            == vm.(segs := vm.segs + (map a | a in Range(s, start, n) :: write), ptes := vm.ptes - Range(s, start, n))
    decreases n
  {
    if n == 0 {
      assert Range(s, start, n) == {};
    } else {
      MapPagesAre(MapPage(vm, At(s, start), write), s, start + 1, n - 1, write);
      RangeFirst(s, start, n);
    }
  }
}
