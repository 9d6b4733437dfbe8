/**
 * Copy-on-write over the real page tables: what fork, page faults and unmap do in the radix trees of the MMU is what
 * they do in the flat map of descriptors, so that memory that is never shared is also what the hardware shows.
 */
module Paging {
  import opened Common
  import opened CopyOnWrite
  import Mmu
  import PageTable

  datatype Tree = Tree(mem: PageTable.Memory, place: map<nat, PageTable.Place>)

  /** Each address space has a root table of its own. */
  ghost predicate Rooted(g: PageTable.Geometry, t: Tree, roots: map<nat, nat>) {
    && PageTable.WellFormed(g, t.mem, t.place)
    && (forall s :: s in roots ==> PageTable.IsRoot(g, t.place, roots[s]))
    && (forall s, s' :: s in roots && s' in roots && s != s' ==> roots[s] != roots[s'])
  }

  /** What the hardware makes of address `x` is what the descriptor of its page says. */
  predicate Agrees(g: PageTable.Geometry, m: Option<PageTable.Mapping>, ptes: map<At, Pte>, s: nat, x: nat)
    requires g.pageSize > 0
  {
    var a := At(s, x / g.pageSize);
    match m
    case None => a !in ptes
    case Some(v) =>
      a in ptes && v.base == ptes[a].frame && v.size == g.pageSize && v.writeProtect == ptes[a].writeProtect
  }

  ghost predicate AgreesAt(g: PageTable.Geometry, t: Tree, roots: map<nat, nat>, ptes: map<At, Pte>, s: nat, x: nat)
    requires Rooted(g, t, roots) && s in roots
  {
    Agrees(g, PageTable.Translate(g, t.mem, t.place, roots[s], x), ptes, s, x)
  }

  /** The trees translate as the descriptors say. */
  ghost predicate Realises(g: PageTable.Geometry, t: Tree, roots: map<nat, nat>, ptes: map<At, Pte>) {
    Rooted(g, t, roots) && forall s, x :: s in roots && 0 <= x < g.Reach() ==> AgreesAt(g, t, roots, ptes, s, x)
  }

  // ----- pages and addresses -----

  lemma PageRange(x: nat, start: nat, n: nat, size: nat)
    requires size > 0
    ensures start * size <= x < start * size + n * size <==> start <= x / size < start + n
  {
    var p := x / size;
    if p >= start {
      MulMonotone(start, p, size);
    } else {
      MulMonotone(p + 1, start, size);
    }
    if p >= start + n {
      MulMonotone(start + n, p, size);
    } else {
      MulMonotone(p + 1, start + n, size);
    }
  }

  lemma Multiple(p: nat, size: nat)
    requires size > 0
    ensures p * size % size == 0 && p * size / size == p
  {
    DivModUnique(p * size, size, p, 0);
  }

  // ----- what the operations do to the descriptors -----

  /** fork shares the loaded pages of the range, protected on both sides if the segment can be written. */
  ghost predicate Shared(vm: VM, dst: nat, src: nat, start: nat, n: nat, ptes: map<At, Pte>, a: At) {
    var from := At(src, a.page);
    if (a.space == dst || a.space == src) && start <= a.page < start + n then
      && (a in ptes <==> from in vm.ptes)
      && (from in vm.ptes && from in vm.segs && a in ptes ==>
            ptes[a] == vm.ptes[from].(writeProtect := vm.ptes[from].writeProtect || vm.segs[from]))
    else (a in ptes <==> a in vm.ptes) && (a in ptes ==> ptes[a] == vm.ptes[a])
  }

  lemma {:induction false} CopyShares(vm: VM, dst: nat, src: nat, start: nat, n: nat, a: At)
    requires Copyable(vm, dst, src, start, n)
    ensures Shared(vm, dst, src, start, n, CopyPages(vm, dst, src, start, n).ptes, a)
    decreases n
  {
    if n > 0 {
      var vm1 := CopyPage(vm, dst, src, start);
      CopyShares(vm1, dst, src, start + 1, n - 1, a);
    }
  }

  /** From page `p` on, the descriptors of an address space are those there were. */
  ghost predicate SameFrom(ptes: map<At, Pte>, was: map<At, Pte>, s: nat, p: nat) {
    forall a: At :: a.space == s && p <= a.page ==>
      (a in ptes <==> a in was) && (a in ptes ==> ptes[a] == was[a])
  }

  lemma SameFromStart(ptes: map<At, Pte>, s: nat, p: nat)
    ensures SameFrom(ptes, ptes, s, p)
  {
  }

  lemma CopyNext(vm: VM, dst: nat, src: nat, p: nat, n: nat, was: map<At, Pte>)
    requires Copyable(vm, dst, src, p, n) && n > 0 && SameFrom(vm.ptes, was, src, p)
    ensures var vm' := CopyPage(vm, dst, src, p);
            && Copyable(vm', dst, src, p + 1, n - 1) && SameFrom(vm'.ptes, was, src, p + 1)
            && CopyPages(vm', dst, src, p + 1, n - 1) == CopyPages(vm, dst, src, p, n)
    ensures At(src, p) in vm.segs && (At(src, p) in vm.ptes <==> At(src, p) in was)
    ensures At(src, p) in vm.ptes ==> vm.ptes[At(src, p)] == was[At(src, p)]
  {
  }

  lemma CopyNone(vm: VM, dst: nat, src: nat, p: nat)
    requires Copyable(vm, dst, src, p, 0)
    ensures CopyPages(vm, dst, src, p, 0) == vm
  {
  }

  lemma {:induction false} CopyKeys(vm: VM, dst: nat, src: nat, start: nat, n: nat)
    requires Copyable(vm, dst, src, start, n)
    ensures var vm' := CopyPages(vm, dst, src, start, n);
            vm'.segs.Keys == vm.segs.Keys + Range(dst, start, n) && vm'.refs.Keys == vm.refs.Keys
    decreases n
  {
    if n == 0 {
      assert Range(dst, start, n) == {};
    } else {
      CopyKeys(CopyPage(vm, dst, src, start), dst, src, start + 1, n - 1);
      RangeFirst(dst, start, n);
    }
  }

  lemma {:induction false} UnmapDrops(vm: VM, s: nat, start: nat, n: nat)
    ensures UnmapPages(vm, s, start, n).ptes == vm.ptes - Range(s, start, n)
    decreases n
  {
    if n == 0 {
      assert Range(s, start, n) == {};
    } else {
      UnmapDrops(UnmapPage(vm, At(s, start)), s, start + 1, n - 1);
      RangeFirst(s, start, n);
    }
  }

  /** A fault that is resolved changes the descriptor of its own page alone, to name the frame that was handed out. */
  lemma FaultInstalls(vm: VM, size: nat, a: At, write: bool, frame: Option<nat>)
    ensures var (vm', fault) := LoadPageAt(vm, size, a, write, frame);
            if fault == Resolved then frame.Some? && a in vm'.ptes
               && vm'.ptes == vm.ptes[a := Pte(frame.value, vm'.ptes[a].writeProtect)]
            else vm' == vm
  {
  }

  // ----- what they do to the trees -----

  /** Page `a` translates to `frame`, and nothing else has changed. */
  ghost predicate Installed(g: PageTable.Geometry, t: Tree, t': Tree, root: nat, page: nat, frame: nat, wp: bool)
    requires PageTable.WellFormed(g, t.mem, t.place) && PageTable.WellFormed(g, t'.mem, t'.place) && root in t.place
    requires root in t'.place
  {
    forall x :: 0 <= x < g.Reach() ==>
      var m := PageTable.Translate(g, t'.mem, t'.place, root, x);
      if page * g.pageSize <= x < page * g.pageSize + g.pageSize then
        m.Some? && m.value.base == frame && m.value.size == g.pageSize && m.value.writeProtect == wp
      else m == PageTable.Translate(g, t.mem, t.place, root, x)
  }

  lemma RootedKept(g: PageTable.Geometry, t: Tree, t': Tree, roots: map<nat, nat>)
    requires Rooted(g, t, roots) && PageTable.WellFormed(g, t'.mem, t'.place)
    requires forall p :: p in t.place ==> p in t'.place && t'.place[p] == t.place[p]
    ensures Rooted(g, t', roots)
  {
  }

  lemma InstallRealises(g: PageTable.Geometry, t: Tree, t': Tree, roots: map<nat, nat>, ptes: map<At, Pte>, a: At,
      pte: Pte)
    requires Realises(g, t, roots, ptes) && Rooted(g, t', roots) && a.space in roots
    requires PageTable.OthersKept(g, t.mem, t.place, t'.mem, t'.place, roots[a.space])
    requires Installed(g, t, t', roots[a.space], a.page, pte.frame, pte.writeProtect)
    ensures Realises(g, t', roots, ptes[a := pte])
  {
    var ptes' := ptes[a := pte];
    forall s, x | s in roots && 0 <= x < g.Reach()
      ensures AgreesAt(g, t', roots, ptes', s, x)
    {
      assert AgreesAt(g, t, roots, ptes, s, x);
      PageRange(x, a.page, 1, g.pageSize);
    }
  }

  lemma CopyRealises(g: PageTable.Geometry, t: Tree, t': Tree, roots: map<nat, nat>, vm: VM, dst: nat, src: nat,
      start: nat, n: nat, cow: bool)
    requires Realises(g, t, roots, vm.ptes) && Rooted(g, t', roots) && dst in roots && src in roots
    requires Copyable(vm, dst, src, start, n)
    requires forall p :: start <= p < start + n ==> vm.segs[At(src, p)] == cow
    requires PageTable.CopiedUpTo(g, t.mem, t.place, t'.mem, t'.place, roots[dst], roots[src], cow,
             start * g.pageSize, start * g.pageSize + n * g.pageSize)
    ensures Realises(g, t', roots, CopyPages(vm, dst, src, start, n).ptes)
  {
    var ptes := CopyPages(vm, dst, src, start, n).ptes;
    forall s, x | s in roots && 0 <= x < g.Reach()
      ensures AgreesAt(g, t', roots, ptes, s, x)
    {
      var a := At(s, x / g.pageSize);
      assert AgreesAt(g, t, roots, vm.ptes, s, x) && AgreesAt(g, t, roots, vm.ptes, src, x);
      PageRange(x, start, n, g.pageSize);
      CopyShares(vm, dst, src, start, n, a);
    }
  }

  /** Mapping a range for later, and unmapping it, drop its descriptors. */
  lemma DropRealises(g: PageTable.Geometry, t: Tree, t': Tree, roots: map<nat, nat>, ptes: map<At, Pte>, s: nat,
      start: nat, n: nat, q: PageTable.Request)
    requires Realises(g, t, roots, ptes) && Rooted(g, t', roots) && s in roots
    requires q.root == roots[s] && q.start == start * g.pageSize && q.size == n * g.pageSize
    requires q.op == PageTable.Unmap || q.ty == PageTable.Unallocated
    requires PageTable.OthersKept(g, t.mem, t.place, t'.mem, t'.place, roots[s])
    requires PageTable.GrantedUpTo(g, t.mem, t.place, t'.mem, t'.place, q, q.End())
    ensures Realises(g, t', roots, ptes - Range(s, start, n))
  {
    var ptes' := ptes - Range(s, start, n);
    forall z, x | z in roots && 0 <= x < g.Reach()
      ensures AgreesAt(g, t', roots, ptes', z, x)
    {
      var a := At(z, x / g.pageSize);
      assert AgreesAt(g, t, roots, ptes, z, x);
      PageRange(x, start, n, g.pageSize);
      assert a in Range(s, start, n) <==> z == s && start <= a.page < start + n;
    }
  }

  lemma PageSized(g: PageTable.Geometry, t: Tree, roots: map<nat, nat>, ptes: map<At, Pte>, s: nat, x: nat)
    requires g.pageSize > 0 && Realises(g, t, roots, ptes) && s in roots && x < g.Reach()
    ensures var at := At(s, x / g.pageSize); var m := PageTable.Translate(g, t.mem, t.place, roots[s], x);
            m.Some? ==> m.value.size == g.pageSize && at in ptes
  {
    assert AgreesAt(g, t, roots, ptes, s, x);
  }

  lemma PageStart(g: PageTable.Geometry, t: Tree, roots: map<nat, nat>, ptes: map<At, Pte>, s: nat, x: nat)
    requires g.pageSize > 0 && x % g.pageSize == 0 && Realises(g, t, roots, ptes) && s in roots && x < g.Reach()
    ensures !PageTable.Straddled(g, t.mem, t.place, roots[s], x)
  {
    PageSized(g, t, roots, ptes, s, x);
  }

  /** A range of pages that are not loaded can be reserved, and one of whole pages unmapped, without cutting a page. */
  lemma RangeClean(g: PageTable.Geometry, t: Tree, roots: map<nat, nat>, ptes: map<At, Pte>, s: nat, start: nat,
      n: nat, q: PageTable.Request)
    requires Realises(g, t, roots, ptes) && s in roots && q.root == roots[s] && n > 0
    requires q.start == start * g.pageSize && q.size == n * g.pageSize && q.End() <= g.Reach()
    requires q.op == PageTable.Map ==> forall p :: start <= p < start + n ==> At(s, p) !in ptes
    ensures PageTable.Clean(g, t.mem, t.place, q)
  {
    Multiple(start, g.pageSize);
    Multiple(start + n, g.pageSize);
    MulMonotone(1, n, g.pageSize);
    assert q.End() == (start + n) * g.pageSize;
    match q.op
    case Map =>
      forall x | q.start <= x < q.End()
        ensures PageTable.Translate(g, t.mem, t.place, q.root, x) == None
      {
        PageSized(g, t, roots, ptes, s, x);
        PageRange(x, start, n, g.pageSize);
      }
    case Unmap =>
      PageStart(g, t, roots, ptes, s, q.start);
      if q.End() < g.Reach() {
        PageStart(g, t, roots, ptes, s, q.End());
      }
  }

  lemma AllSmall(g: PageTable.Geometry, t: Tree, roots: map<nat, nat>, ptes: map<At, Pte>, s: nat, start: nat, end: nat)
    requires Realises(g, t, roots, ptes) && s in roots && end <= g.Reach()
    ensures PageTable.SmallPages(g, t.mem, t.place, roots[s], start, end)
  {
    forall x | start <= x < end && PageTable.Translate(g, t.mem, t.place, roots[s], x).Some?
      ensures PageTable.Translate(g, t.mem, t.place, roots[s], x).value.size == g.pageSize
    {
      assert AgreesAt(g, t, roots, ptes, s, x);
    }
  }

  /**
   The hardware finds at `x` the very byte of memory that is never shared,
   faults exactly if the page is not loaded, and lets a process write only to
   a page frame that is its own.
   */
  ghost predicate OnHardware(g: PageTable.Geometry, t: Tree, roots: map<nat, nat>, vm: VM, e: Eager, s: nat, x: nat)
    requires g.pageSize > 0 && Rooted(g, t, roots) && s in roots
  {
    var m, a := PageTable.Translate(g, t.mem, t.place, roots[s], x), At(s, x / g.pageSize);
    && (m.Some? <==> a in vm.ptes)
    && (m.Some? ==>
          && a in e && m.value.base in vm.mem && x % g.pageSize < |e[a].bytes|
          && |vm.mem[m.value.base]| == g.pageSize
          && vm.mem[m.value.base][x % g.pageSize] == e[a].bytes[x % g.pageSize])
    && (m.Some? && !m.value.writeProtect ==> e[a].write && Owners(vm.ptes, m.value.base) == {a})
  }

  /** Where the trees realise a machine that shows memory that is never shared, the hardware shows it too. */
  lemma HardwareShows(g: PageTable.Geometry, t: Tree, roots: map<nat, nat>, vm: VM, e: Eager, s: nat, x: nat)
    requires g.pageSize > 0 && Realises(g, t, roots, vm.ptes) && Inv(vm, g.pageSize) && Shows(vm, g.pageSize, e)
    requires s in roots && x < g.Reach()
    ensures OnHardware(g, t, roots, vm, e, s, x)
  {
    var a := At(s, x / g.pageSize);
    assert AgreesAt(g, t, roots, vm.ptes, s, x);
    if a in vm.ptes {
      assert PteOk(vm, a) && FrameOk(vm, vm.ptes[a].frame);
      assert a in Owners(vm.ptes, vm.ptes[a].frame);
      if !vm.ptes[a].writeProtect {
        OnlyOwner(Owners(vm.ptes, vm.ptes[a].frame), a);
      }
    }
  }

  lemma AllOnHardware(g: PageTable.Geometry, t: Tree, roots: map<nat, nat>, vm: VM, e: Eager)
    requires g.pageSize > 0 && Served(g, t, roots, vm) && Inv(vm, g.pageSize) && Shows(vm, g.pageSize, e)
    ensures Rooted(g, t, roots)
    ensures forall s, x :: s in roots && 0 <= x < g.Reach() ==> OnHardware(g, t, roots, vm, e, s, x)
  {
    forall s, x | s in roots && 0 <= x < g.Reach()
      ensures OnHardware(g, t, roots, vm, e, s, x)
    {
      HardwareShows(g, t, roots, vm, e, s, x);
    }
  }

  lemma OnlyOwner(o: set<At>, a: At)
    requires a in o && |o| == 1
    ensures o == {a}
  {
    assert |o - {a}| == 0;
    assert o == {a} + (o - {a});
  }

  // ----- segments and their tables -----

  /** A page of a segment is within reach, and there is a leaf table for it, loaded or not. */
  ghost predicate PageServed(g: PageTable.Geometry, t: Tree, roots: map<nat, nat>, a: At)
    requires Rooted(g, t, roots)
  {
    && a.space in roots && a.page * g.pageSize + g.pageSize <= g.Reach()
    && PageTable.HasLeaf(g, t.mem, t.place, roots[a.space], a.page * g.pageSize)
  }

  /** The trees are those of the machine `vm`, in which no page frame is at address 0. */
  ghost predicate Served(g: PageTable.Geometry, t: Tree, roots: map<nat, nat>, vm: VM) {
    && Realises(g, t, roots, vm.ptes)
    && 0 !in vm.refs
    && (forall a :: a in vm.ptes ==> a.space in roots && vm.ptes[a].frame != 0)
    && (forall a :: a in vm.segs ==> PageServed(g, t, roots, a))
  }

  lemma StillServed(g: PageTable.Geometry, t: Tree, t': Tree, roots: map<nat, nat>, a: At)
    requires Rooted(g, t, roots) && Rooted(g, t', roots) && PageServed(g, t, roots, a)
    requires PageTable.LeavesKept(g, t.mem, t.place, t'.mem, t'.place)
    ensures PageServed(g, t', roots, a)
  {
  }

  /** The pages of a range whose leaf tables there are, and those that were served before, are served. */
  lemma RangeServed(g: PageTable.Geometry, t: Tree, t': Tree, roots: map<nat, nat>, segs: set<At>, s: nat, start: nat,
      n: nat)
    requires Rooted(g, t, roots) && Rooted(g, t', roots) && s in roots
    requires start * g.pageSize + n * g.pageSize <= g.Reach()
    requires forall a :: a in segs ==> PageServed(g, t, roots, a)
    requires PageTable.LeavesUpTo(g, t.mem, t.place, t'.mem, t'.place, roots[s], start * g.pageSize,
             start * g.pageSize + n * g.pageSize)
    ensures forall a :: a in segs + Range(s, start, n) ==> PageServed(g, t', roots, a)
  {
    forall a | a in segs + Range(s, start, n)
      ensures PageServed(g, t', roots, a)
    {
      if a in segs {
        StillServed(g, t, t', roots, a);
      } else {
        PageWithin(a.page, start, n, g.pageSize);
      }
    }
  }

  /** Page frames may come and go. */
  lemma FramesServed(g: PageTable.Geometry, t: Tree, roots: map<nat, nat>, vm: VM, vm': VM)
    requires Served(g, t, roots, vm) && vm'.ptes == vm.ptes && vm'.segs == vm.segs && 0 !in vm'.refs
    ensures Served(g, t, roots, vm')
  {
  }

  lemma LastServed(g: PageTable.Geometry, t: Tree, roots: map<nat, nat>, vm: VM, s: nat, start: nat, n: nat)
    requires Served(g, t, roots, vm) && n > 0 && At(s, start + n - 1) in vm.segs
    ensures s in roots && g.Valid() && start * g.pageSize + n * g.pageSize <= g.Reach()
  {
    var p := start + n - 1;
    assert PageServed(g, t, roots, At(s, p));
    RangeEnd(start, n, g.pageSize);
  }

  lemma RangeEnd(start: nat, n: nat, size: nat)
    requires n > 0
    ensures start * size + n * size == (start + n - 1) * size + size
  {
  }

  lemma PageWithin(p: nat, start: nat, n: nat, size: nat)
    requires size > 0 && start <= p < start + n
    ensures start * size <= p * size && p * size + size <= start * size + n * size
  {
    MulMonotone(start, p, size);
    MulMonotone(p + 1, start + n, size);
  }

  lemma NewRealises(g: PageTable.Geometry, t: Tree, t': Tree, roots: map<nat, nat>, s: nat, root: nat,
      ptes: map<At, Pte>)
    requires Realises(g, t, roots, ptes) && s !in roots && root !in t.place
    requires forall a :: a in ptes ==> a.space in roots
    requires PageTable.WellFormed(g, t'.mem, t'.place) && PageTable.IsRoot(g, t'.place, root)
    requires PageTable.OthersKept(g, t.mem, t.place, t'.mem, t'.place, root)
    requires forall x :: 0 <= x ==> PageTable.Translate(g, t'.mem, t'.place, root, x) == None
    ensures Realises(g, t', roots[s := root], ptes)
  {
    var roots' := roots[s := root];
    assert Rooted(g, t', roots');
    forall z, x | z in roots' && 0 <= x < g.Reach()
      ensures AgreesAt(g, t', roots', ptes, z, x)
    {
      if z != s {
        assert AgreesAt(g, t, roots, ptes, z, x);
      }
    }
  }

  lemma NewServed(g: PageTable.Geometry, t: Tree, t': Tree, roots: map<nat, nat>, s: nat, root: nat, vm: VM)
    requires Served(g, t, roots, vm) && s !in roots && root !in t.place
    requires PageTable.WellFormed(g, t'.mem, t'.place) && PageTable.IsRoot(g, t'.place, root)
    requires PageTable.OthersKept(g, t.mem, t.place, t'.mem, t'.place, root)
    requires PageTable.LeavesKept(g, t.mem, t.place, t'.mem, t'.place)
    requires forall x :: 0 <= x ==> PageTable.Translate(g, t'.mem, t'.place, root, x) == None
    ensures Served(g, t', roots[s := root], vm)
  {
    NewRealises(g, t, t', roots, s, root, vm.ptes);
    forall a | a in vm.segs
      ensures PageServed(g, t', roots[s := root], a)
    {
      assert PageServed(g, t, roots, a);
    }
  }

  lemma CopyKeepsSpaces(vm: VM, dst: nat, src: nat, start: nat, n: nat, roots: map<nat, nat>)
    requires Copyable(vm, dst, src, start, n) && dst in roots && src in roots
    requires forall a :: a in vm.ptes ==> a.space in roots && vm.ptes[a].frame != 0
    ensures var ptes := CopyPages(vm, dst, src, start, n).ptes;
            forall a :: a in ptes ==> a.space in roots && ptes[a].frame != 0
  {
    var ptes := CopyPages(vm, dst, src, start, n).ptes;
    forall a | a in ptes
      ensures a.space in roots && ptes[a].frame != 0
    {
      CopyShares(vm, dst, src, start, n, a);
    }
  }

  lemma CopyServed(g: PageTable.Geometry, t: Tree, t': Tree, roots: map<nat, nat>, vm: VM, dst: nat, src: nat,
      start: nat, n: nat)
    requires Served(g, t, roots, vm) && dst in roots && src in roots && Copyable(vm, dst, src, start, n)
    requires start * g.pageSize + n * g.pageSize <= g.Reach()
    requires Realises(g, t', roots, CopyPages(vm, dst, src, start, n).ptes)
    requires PageTable.LeavesUpTo(g, t.mem, t.place, t'.mem, t'.place, roots[dst], start * g.pageSize,
             start * g.pageSize + n * g.pageSize)
    ensures Served(g, t', roots, CopyPages(vm, dst, src, start, n))
  {
    CopyKeepsSpaces(vm, dst, src, start, n, roots);
    CopyKeys(vm, dst, src, start, n);
    RangeServed(g, t, t', roots, vm.segs.Keys, dst, start, n);
  }

  lemma MapServed(g: PageTable.Geometry, t: Tree, t': Tree, roots: map<nat, nat>, vm: VM, s: nat, start: nat, n: nat,
      write: bool)
    requires Served(g, t, roots, vm) && s in roots && start * g.pageSize + n * g.pageSize <= g.Reach()
    requires Realises(g, t', roots, vm.ptes - Range(s, start, n))
    requires PageTable.LeavesUpTo(g, t.mem, t.place, t'.mem, t'.place, roots[s], start * g.pageSize,
             start * g.pageSize + n * g.pageSize)
    ensures Served(g, t', roots, MapPages(vm, s, start, n, write))
  {
    MapPagesAre(vm, s, start, n, write);
    RangeServed(g, t, t', roots, vm.segs.Keys, s, start, n);
  }

  // ----- the code -----

  /** What a process can ask for: addresses the tables can tell apart, and page frames other than null. */
  predicate Fits(g: PageTable.Geometry, op: CopyOnWrite.Op)
    requires g.Valid()
  {
    match op
    case Map(a, _) => a.page * g.pageSize + g.pageSize <= g.Reach()
    case Load(a, _, frame) => a.page * g.pageSize + g.pageSize <= g.Reach() && frame != Some(0)
    case Store(a, _, _, frame) => a.page * g.pageSize + g.pageSize <= g.Reach() && frame != Some(0)
    case _ => true
  }

  /** The address spaces of all processes, each with its own tree; `ptes` is what the trees amount to. */
  class PagedSpaces {
    const mmu: Mmu.Mmu
    var roots: map<nat, nat>
    var mem: map<nat, seq<byte>>
    var refs: map<nat, nat>
    var segs: map<At, bool>
    var low: seq<byte>
    ghost var ptes: map<At, Pte>

    ghost function View(): Tree
      reads mmu
    {
      Tree(mmu.mem, mmu.place)
    }

    ghost function State(): VM
      reads this
    {
      VM(mem, refs, segs, ptes, low)
    }

    ghost predicate Valid()
      reads this, mmu
    {
      mmu.Valid() && Served(mmu.g, View(), roots, State())
    }

    constructor (mmu: Mmu.Mmu, low: seq<byte>)
      requires mmu.Valid()
      ensures Valid() && this.mmu == mmu && roots == map[] && State() == VM(map[], map[], map[], map[], low)
    {
      this.mmu, roots := mmu, map[];
      mem, refs, segs, ptes, this.low := map[], map[], map[], map[], low;
    }

    /** The page tables of a new address space. */
    method NewSpace(s: nat)
      requires Valid() && s !in roots
      modifies this`roots, mmu
      ensures Valid() && roots.Keys == old(roots).Keys + {s}
    {
      ghost var t := View();
      var root := mmu.AllocRoot();
      roots := roots[s := root];
      forall x | 0 <= x
        ensures PageTable.Translate(mmu.g, mmu.mem, mmu.place, root, x) == None
      {
        assert mmu.View(root, x) == None;
      }
      hide Served, PageTable.OthersKept, PageTable.LeavesKept;
      NewServed(mmu.g, t, View(), old(roots), s, root, State());
    }

    /** page_free of one page. */
    method PageFree(f: nat)
      modifies this`mem, this`refs
      ensures State() == Free(old(State()), f)
    {
      if f in refs {
        var r := (refs[f] + REFCOUNT_MAX) % (REFCOUNT_MAX + 1);
        if r == 0 {
          mem, refs := mem - {f}, refs - {f};
        } else {
          refs := refs[f := r];
        }
      }
    }

    /** page_make_ref of one page. */
    method PageMakeRef(f: nat)
      modifies this`refs
      ensures State() == MakeRef(old(State()), f)
    {
      if f in refs {
        refs := refs[f := (refs[f] + 1) % (REFCOUNT_MAX + 1)];
      }
    }

    /** memory_map_mmap of `n` pages that are loaded when they are first used. */
    method MapSegment(s: nat, start: nat, n: nat, write: bool)
      requires Valid() && s in roots && n > 0 && start * mmu.g.pageSize + n * mmu.g.pageSize <= mmu.g.Reach()
      requires forall p :: start <= p < start + n ==> At(s, p) !in ptes
      modifies this`segs, this`ptes, mmu
      ensures Valid() && State() == MapPages(old(State()), s, start, n, write)
    {
      assert Realises(mmu.g, View(), roots, ptes);
      hide Served, PageTable.LeavesUpTo, Realises;
      MapTables(s, start, n, write);
      MapServed(mmu.g, old(View()), View(), roots, State(), s, start, n, write);
      MapPagesAre(State(), s, start, n, write);
      segs := segs + (map a | a in Range(s, start, n) :: write);
      ptes := ptes - Range(s, start, n);
    }

    /** The tables of a segment that is mapped. */
    method MapTables(s: nat, start: nat, n: nat, write: bool)
      requires mmu.Valid() && Realises(mmu.g, View(), roots, ptes) && s in roots && n > 0
      requires start * mmu.g.pageSize + n * mmu.g.pageSize <= mmu.g.Reach()
      requires forall p :: start <= p < start + n ==> At(s, p) !in ptes
      modifies mmu
      ensures mmu.Valid() && Realises(mmu.g, View(), roots, ptes - Range(s, start, n))
      ensures PageTable.LeavesUpTo(mmu.g, old(mmu.mem), old(mmu.place), mmu.mem, mmu.place, roots[s],
                start * mmu.g.pageSize, start * mmu.g.pageSize + n * mmu.g.pageSize)
    {
      ghost var t := View();
      var size := mmu.g.pageSize;
      var q := PageTable.Request(roots[s], start * size, n * size, PageTable.Map, PageTable.Unallocated, write, false);
      Multiple(start, size);
      Multiple(n, size);
      RangeClean(mmu.g, t, roots, ptes, s, start, n, q);
      PageTable.CleanSmall(mmu.g, mmu.mem, mmu.place, q);
      var outcome := mmu.MapRange(q);
      RootedKept(mmu.g, t, View(), roots);
      DropRealises(mmu.g, t, View(), roots, ptes, s, start, n, q);
    }

    /** What the tree has for page `p`, where it realises descriptors `was`. */
    method Loaded(s: nat, p: nat, ghost was: map<At, Pte>) returns (m: Option<PageTable.Mapping>)
      requires mmu.Valid() && Realises(mmu.g, View(), roots, was) && s in roots
      requires p * mmu.g.pageSize + mmu.g.pageSize <= mmu.g.Reach()
      ensures match m
              case None => At(s, p) !in was
              case Some(v) => At(s, p) in was && was[At(s, p)] == Pte(v.base, v.writeProtect)
    {
      Multiple(p, mmu.g.pageSize);
      m := mmu.WalkTables(roots[s], p * mmu.g.pageSize);
      assert AgreesAt(mmu.g, View(), roots, was, s, p * mmu.g.pageSize);
    }

    /** One page of a fork, all but the descriptors. */
    method ShareOne(dst: nat, src: nat, p: nat, ghost was: map<At, Pte>)
      requires mmu.Valid() && Realises(mmu.g, View(), roots, was) && src in roots && At(src, p) in segs
      requires p * mmu.g.pageSize + mmu.g.pageSize <= mmu.g.Reach()
      requires At(src, p) in ptes <==> At(src, p) in was
      requires At(src, p) in ptes ==> ptes[At(src, p)] == was[At(src, p)]
      modifies this`segs, this`ptes, this`refs
      ensures State() == CopyPage(old(State()), dst, src, p)
    {
      var m := Loaded(src, p, was);
      var s, d := At(src, p), At(dst, p);
      var write := segs[s];
      segs := segs[d := write];
      if m.Some? {
        ghost var pte := ptes[s].(writeProtect := ptes[s].writeProtect || write);
        ptes := ptes[d := pte][s := pte];
        PageMakeRef(m.value.base);
      } else {
        ptes := ptes - {d};
      }
    }

    /** memory_map_copy_segment, of `n` pages from page `start` on; `cow` if the segment can be written. */
    method CopySegment(dst: nat, src: nat, start: nat, n: nat, cow: bool)
      requires Valid() && dst in roots && Copyable(State(), dst, src, start, n) && src in roots
      requires forall p :: start <= p < start + n ==> segs[At(src, p)] == cow
      requires start * mmu.g.pageSize + n * mmu.g.pageSize <= mmu.g.Reach()
      modifies this`segs, this`ptes, this`refs, mmu
      ensures Valid() && State() == CopyPages(old(State()), dst, src, start, n)
    {
      assert Realises(mmu.g, View(), roots, ptes);
      hide Served, CopyPages, PageTable.LeavesUpTo, Realises;
      CountCopy(dst, src, start, n);
      CopyTables(dst, src, start, n, cow, old(State()));
      CopyServed(mmu.g, old(View()), View(), roots, old(State()), dst, src, start, n);
    }

    /** The counts of the pages shared, and the segment on the other side. */
    method CountCopy(dst: nat, src: nat, start: nat, n: nat)
      requires mmu.Valid() && Realises(mmu.g, View(), roots, ptes) && src in roots
      requires Copyable(State(), dst, src, start, n)
      requires start * mmu.g.pageSize + n * mmu.g.pageSize <= mmu.g.Reach()
      modifies this`segs, this`ptes, this`refs
      ensures State() == CopyPages(old(State()), dst, src, start, n)
    {
      hide Realises, CopyPages, CopyPage, Copyable, SameFrom;
      var p := start;
      SameFromStart(ptes, src, p);
      while p < start + n
        invariant start <= p <= start + n && SameFrom(ptes, old(ptes), src, p)
        invariant Copyable(State(), dst, src, p, start + n - p)
        invariant CopyPages(State(), dst, src, p, start + n - p) == CopyPages(old(State()), dst, src, start, n)
      {
        PageWithin(p, start, n, mmu.g.pageSize);
        CopyNext(State(), dst, src, p, start + n - p, old(ptes));
        ShareOne(dst, src, p, old(ptes));
        p := p + 1;
      }
      CopyNone(State(), dst, src, p);
    }

    /** The tables of a fork. */
    method CopyTables(dst: nat, src: nat, start: nat, n: nat, cow: bool, ghost vm: VM)
      requires mmu.Valid() && Realises(mmu.g, View(), roots, vm.ptes) && dst in roots && src in roots
      requires Copyable(vm, dst, src, start, n) && forall p :: start <= p < start + n ==> vm.segs[At(src, p)] == cow
      requires start * mmu.g.pageSize + n * mmu.g.pageSize <= mmu.g.Reach()
      modifies mmu
      ensures mmu.Valid() && Realises(mmu.g, View(), roots, CopyPages(vm, dst, src, start, n).ptes)
      ensures PageTable.LeavesUpTo(mmu.g, old(mmu.mem), old(mmu.place), mmu.mem, mmu.place, roots[dst],
                start * mmu.g.pageSize, start * mmu.g.pageSize + n * mmu.g.pageSize)
    {
      ghost var t := View();
      var size := mmu.g.pageSize;
      Multiple(start, size);
      Multiple(n, size);
      AllSmall(mmu.g, t, roots, vm.ptes, src, start * size, start * size + n * size);
      AllSmall(mmu.g, t, roots, vm.ptes, dst, start * size, start * size + n * size);
      var outcome := mmu.CopyRange(roots[dst], roots[src], start * size, n * size, cow);
      RootedKept(mmu.g, t, View(), roots);
      CopyRealises(mmu.g, t, View(), roots, vm, dst, src, start, n, cow);
    }

    /** One page of an unmap, all but the descriptors. */
    method DropOne(s: nat, p: nat, ghost was: map<At, Pte>)
      requires mmu.Valid() && Realises(mmu.g, View(), roots, was) && s in roots
      requires p * mmu.g.pageSize + mmu.g.pageSize <= mmu.g.Reach()
      requires At(s, p) in ptes <==> At(s, p) in was
      requires At(s, p) in ptes ==> ptes[At(s, p)] == was[At(s, p)]
      modifies this`segs, this`ptes, this`mem, this`refs
      ensures State() == UnmapPage(old(State()), At(s, p)) && refs.Keys <= old(refs.Keys)
    {
      var m := Loaded(s, p, was);
      segs := segs - {At(s, p)};
      ptes := ptes - {At(s, p)};
      if m.Some? {
        PageFree(m.value.base);
      }
    }

    /** The pages that an unmap releases. */
    method CountUnmap(s: nat, start: nat, n: nat)
      requires mmu.Valid() && Realises(mmu.g, View(), roots, ptes) && s in roots
      requires start * mmu.g.pageSize + n * mmu.g.pageSize <= mmu.g.Reach()
      modifies this`segs, this`ptes, this`mem, this`refs
      ensures State() == UnmapPages(old(State()), s, start, n)
      ensures segs.Keys <= old(segs.Keys) && refs.Keys <= old(refs.Keys)
    {
      var p := start;
      while p < start + n
        invariant start <= p <= start + n && segs.Keys <= old(segs.Keys) && refs.Keys <= old(refs.Keys)
        invariant UnmapPages(State(), s, p, start + n - p) == UnmapPages(old(State()), s, start, n)
        invariant SameFrom(ptes, old(ptes), s, p)
      {
        PageWithin(p, start, n, mmu.g.pageSize);
        DropOne(s, p, old(ptes));
        p := p + 1;
      }
    }

    /** The tables of an unmap. */
    method UnmapTables(s: nat, start: nat, n: nat, ghost was: map<At, Pte>)
      requires mmu.Valid() && Realises(mmu.g, View(), roots, was) && s in roots && n > 0
      requires start * mmu.g.pageSize + n * mmu.g.pageSize <= mmu.g.Reach()
      modifies mmu
      ensures mmu.Valid() && Realises(mmu.g, View(), roots, was - Range(s, start, n))
      ensures PageTable.LeavesKept(mmu.g, old(mmu.mem), old(mmu.place), mmu.mem, mmu.place)
    {
      ghost var t := View();
      var size := mmu.g.pageSize;
      var q := PageTable.Request(roots[s], start * size, n * size, PageTable.Unmap, PageTable.Unallocated, false,
        false);
      Multiple(start, size);
      Multiple(n, size);
      RangeClean(mmu.g, t, roots, was, s, start, n, q);
      AllSmall(mmu.g, t, roots, was, s, q.start, q.End());
      var outcome := mmu.MapRange(q);
      RootedKept(mmu.g, t, View(), roots);
      DropRealises(mmu.g, t, View(), roots, was, s, start, n, q);
    }

    /** memory_map_unmap of `n` pages of a segment, which does nothing in the tables from address 0 on. */
    method UnmapRange(s: nat, start: nat, n: nat)
      requires Valid()
      requires n > 0 ==> s in roots && start * mmu.g.pageSize + n * mmu.g.pageSize <= mmu.g.Reach()
      modifies this`segs, this`ptes, this`mem, this`refs, mmu
      ensures Valid() && State() == UnmapPiece(old(State()), s, start, n)
    {
      if start == 0 {
        segs := segs - Range(s, start, n);
      } else if n > 0 {
        ghost var vm, t := State(), View();
        CountUnmap(s, start, n);
        UnmapDrops(vm, s, start, n);
        UnmapTables(s, start, n, vm.ptes);
        forall a | a in segs
          ensures PageServed(mmu.g, View(), roots, a)
        {
          StillServed(mmu.g, t, View(), roots, a);
        }
      }
    }

    /** mmu_table_set_page, for a page of the size there is. */
    method SetTranslation(root: nat, page: nat, frame: nat, write: bool)
      requires mmu.Valid() && PageTable.IsRoot(mmu.g, mmu.place, root)
      requires page * mmu.g.pageSize + mmu.g.pageSize <= mmu.g.Reach()
      requires var m := mmu.View(root, page * mmu.g.pageSize); m.Some? ==> m.value.size == mmu.g.pageSize
      modifies mmu
      ensures mmu.Valid() && root in mmu.place
      ensures PageTable.OthersKept(mmu.g, old(mmu.mem), old(mmu.place), mmu.mem, mmu.place, root)
      ensures PageTable.LeavesKept(mmu.g, old(mmu.mem), old(mmu.place), mmu.mem, mmu.place)
      ensures Installed(mmu.g, old(View()), View(), root, page, frame, !write)
    {
      var size := mmu.g.pageSize;
      Multiple(page, size);
      var error := mmu.SetPage(root, page * size, frame, size, write);
      assert forall x :: 0 <= x < mmu.g.Reach() ==>
             mmu.View(root, x) == PageTable.Translate(mmu.g, mmu.mem, mmu.place, root, x);
    }

    /** Page `a` now is page frame `frame`. */
    method InstallPage(a: At, frame: nat, write: bool)
      requires Valid() && a.space in roots && a.page * mmu.g.pageSize + mmu.g.pageSize <= mmu.g.Reach() && frame != 0
      modifies this`ptes, mmu
      ensures Valid() && ptes == old(ptes)[a := Pte(frame, !write)]
    {
      ghost var t := View();
      PageSized(mmu.g, t, roots, ptes, a.space, a.page * mmu.g.pageSize);
      SetTranslation(roots[a.space], a.page, frame, write);
      hide Installed, PageTable.OthersKept, PageTable.WellFormed, PageTable.LeavesKept;
      InstalledKeeps(t, View(), roots, roots[a.space], segs.Keys);
      InstallRealises(mmu.g, t, View(), roots, ptes, a, Pte(frame, !write));
      ptes := ptes[a := Pte(frame, !write)];
    }

    lemma InstalledKeeps(t: Tree, t': Tree, roots: map<nat, nat>, root: nat, segs: set<At>)
      requires Rooted(mmu.g, t, roots) && PageTable.WellFormed(mmu.g, t'.mem, t'.place)
      requires PageTable.OthersKept(mmu.g, t.mem, t.place, t'.mem, t'.place, root)
      requires PageTable.LeavesKept(mmu.g, t.mem, t.place, t'.mem, t'.place)
      requires forall a :: a in segs ==> PageServed(mmu.g, t, roots, a)
      ensures Rooted(mmu.g, t', roots) && forall a :: a in segs ==> PageServed(mmu.g, t', roots, a)
    {
      RootedKept(mmu.g, t, t', roots);
      forall a | a in segs
        ensures PageServed(mmu.g, t', roots, a)
      {
        StillServed(mmu.g, t, t', roots, a);
      }
    }

    /** What mmu_table_get_page makes of page `a` of a segment: low pages are never absent. */
    method GetPage(a: At) returns (there: bool, phys: nat)
      requires Valid() && a in segs
      modifies mmu
      ensures Valid() && mmu.mem == old(mmu.mem) && mmu.place == old(mmu.place)
      ensures there <==> a in ptes || a.page <= 1
      ensures there ==> phys == if a in ptes then ptes[a].frame else 0
    {
      var size := mmu.g.pageSize;
      assert PageServed(mmu.g, View(), roots, a) && AgreesAt(mmu.g, View(), roots, ptes, a.space, a.page * size);
      Multiple(a.page, size);
      LowPage(a.page, size);
      var error, found, pageSize := mmu.GetPage(roots[a.space], a.page * size);
      return error == 0, found;
    }

    /** page_alloc of page frame `f`, and what it is filled with. */
    method FillFrame(f: nat, contents: seq<byte>)
      requires Valid() && f != 0
      modifies this`mem, this`refs
      ensures Valid() && State() == Alloc(old(State()), f, contents)
    {
      assert 0 !in refs;
      hide Served;
      mem, refs := mem[f := contents], refs[f := 1];
      FramesServed(mmu.g, View(), roots, old(State()), State());
    }

    /** memory_map_convert_copy_on_write. */
    method ConvertCopy(a: At, phys: nat, frame: nat)
      requires Valid() && a in segs && frame != 0 && phys == if a in ptes then ptes[a].frame else 0
      modifies this`mem, this`refs, this`ptes, mmu
      ensures Valid()
      ensures State() == var vm := old(State());
                         Privatize(vm, a, if a !in vm.ptes then vm.low else if vm.ptes[a].frame in vm.mem
                           then vm.mem[vm.ptes[a].frame] else Zeros(mmu.g.pageSize), frame)
    {
      assert PageServed(mmu.g, View(), roots, a) && 0 !in refs && (a in ptes ==> ptes[a].frame != 0);
      var contents := if phys == 0 then low else if phys in mem then mem[phys] else Zeros(mmu.g.pageSize);
      hide Served, PageServed;
      FillFrame(frame, contents);
      InstallPage(a, frame, true);
      ghost var vm := State();
      assert 0 !in refs;
      PageFree(phys);
      FramesServed(mmu.g, View(), roots, vm, State());
    }

    /** memory_map_load_page_at, with the page frame page_alloc would hand out. */
    method ResolveFault(a: At, write: bool, frame: Option<nat>) returns (fault: Fault)
      requires Valid() && frame != Some(0)
      modifies this`mem, this`refs, this`ptes, mmu
      ensures Valid() && (State(), fault) == LoadPageAt(old(State()), mmu.g.pageSize, a, write, frame)
    {
      if a !in segs {
        return Refused;
      }
      assert PageServed(mmu.g, View(), roots, a);
      hide Served;
      var there, phys := GetPage(a);
      if there {
        if !write || !segs[a] {
          return Refused;
        }
        if frame == None {
          return NoMemory;
        }
        ConvertCopy(a, phys, frame.value);
        return Resolved;
      }
      if write && !segs[a] {
        return Refused;
      }
      if frame == None {
        return NoMemory;
      }
      FillFrame(frame.value, Zeros(mmu.g.pageSize));
      InstallPage(a, frame.value, segs[a]);
      return Resolved;
    }

    /** What the hardware finds for page `a`. */
    method Find(a: At) returns (m: Option<PageTable.Mapping>)
      requires Valid() && a.page * mmu.g.pageSize + mmu.g.pageSize <= mmu.g.Reach()
      ensures match m
              case None => a !in ptes
              case Some(v) => a in ptes && ptes[a] == Pte(v.base, v.writeProtect)
    {
      if a.space !in roots {
        return None;
      }
      m := Loaded(a.space, a.page, ptes);
    }

    /** A byte is read through the tables, once more after a fault that is resolved. */
    method LoadByte(a: At, off: nat, frame: Option<nat>) returns (r: Reply)
      requires Valid() && frame != Some(0) && a.page * mmu.g.pageSize + mmu.g.pageSize <= mmu.g.Reach()
      requires Legal(State(), CopyOnWrite.Load(a, off, frame))
      modifies this`mem, this`refs, this`ptes, mmu
      ensures Valid() && (State(), r) == Step(old(State()), mmu.g.pageSize, CopyOnWrite.Load(a, off, frame))
    {
      hide Served;
      var m := Find(a);
      if m == None {
        var fault := ResolveFault(a, false, frame);
        if fault != Resolved {
          return Failed(fault);
        }
        m := Find(a);
      }
      var f := m.value.base;
      return Byte(if f in mem && off < |mem[f]| then mem[f][off] else 0);
    }

    /** A byte is written through the tables, likewise. */
    method StoreByte(a: At, off: nat, b: byte, frame: Option<nat>) returns (r: Reply)
      requires Valid() && frame != Some(0) && a.page * mmu.g.pageSize + mmu.g.pageSize <= mmu.g.Reach()
      requires Legal(State(), CopyOnWrite.Store(a, off, b, frame))
      modifies this`mem, this`refs, this`ptes, mmu
      ensures Valid() && (State(), r) == Step(old(State()), mmu.g.pageSize, CopyOnWrite.Store(a, off, b, frame))
    {
      hide Served;
      var m := Find(a);
      if m == None || m.value.writeProtect {
        var fault := ResolveFault(a, true, frame);
        if fault != Resolved {
          return Failed(fault);
        }
        m := Find(a);
      }
      PokeFrame(m.value.base, off, b);
      return CopyOnWrite.Done;
    }

    method PokeFrame(f: nat, off: nat, b: byte)
      requires Valid()
      modifies this`mem
      ensures Valid() && State() == Poke(old(State()), f, off, b)
    {
      assert 0 !in refs;
      hide Served;
      if f in mem && off < |mem[f]| {
        var contents: seq<byte> := mem[f][off := b];
        mem := mem[f := contents];
      }
      FramesServed(mmu.g, View(), roots, old(State()), State());
    }

    /** memory_map_mmap of one page, in an address space that may be new. */
    method MapHere(a: At, write: bool)
      requires Valid() && a !in ptes && a.page * mmu.g.pageSize + mmu.g.pageSize <= mmu.g.Reach()
      modifies this, mmu
      ensures Valid() && State() == MapPage(old(State()), a, write)
    {
      hide Served;
      if a.space !in roots {
        NewSpace(a.space);
      }
      assert forall p :: a.page <= p < a.page + 1 ==> At(a.space, p) == a;
      MapSegment(a.space, a.page, 1, write);
      assert MapPages(old(State()), a.space, a.page, 1, write) == MapPage(old(State()), a, write);
    }

    /** memory_map_copy_segment of one page, to an address space that may be new. */
    method CopyHere(dst: nat, src: nat, page: nat)
      requires Valid() && dst != src && At(src, page) in segs && At(dst, page) !in segs
      modifies this, mmu
      ensures Valid() && State() == CopyPage(old(State()), dst, src, page)
    {
      assert PageServed(mmu.g, View(), roots, At(src, page));
      hide Served;
      if dst !in roots {
        NewSpace(dst);
      }
      CopySegment(dst, src, page, 1, segs[At(src, page)]);
      assert CopyPages(old(State()), dst, src, page, 1) == CopyPage(old(State()), dst, src, page);
    }

    /** memory_map_unmap of pages of a segment. */
    method UnmapHere(s: nat, start: nat, n: nat)
      requires Valid() && forall p :: start <= p < start + n ==> At(s, p) in segs
      modifies this, mmu
      ensures Valid() && State() == UnmapPiece(old(State()), s, start, n)
    {
      if n > 0 {
        LastServed(mmu.g, View(), roots, State(), s, start, n);
      }
      hide Served;
      UnmapRange(s, start, n);
    }

    /** One step of the machine, carried out in the tables. */
    method Perform(op: CopyOnWrite.Op) returns (r: Reply)
      requires Valid() && Legal(State(), op) && Fits(mmu.g, op) && (op.Map? ==> op.a !in ptes)
      modifies this, mmu
      ensures Valid() && (State(), r) == Step(old(State()), mmu.g.pageSize, op)
    {
      hide Served;
      r := CopyOnWrite.Done;
      match op
      case Map(a, write) => MapHere(a, write);
      case Copy(dst, src, page) => CopyHere(dst, src, page);
      case Unmap(s, start, n) => UnmapHere(s, start, n);
      case Load(a, off, frame) => r := LoadByte(a, off, frame);
      case Store(a, off, b, frame) => r := StoreByte(a, off, b, frame);
    }

    /** Steps of the machine, carried out in the tables. */
    method PerformAll(ops: seq<CopyOnWrite.Op>, ghost e: Eager) returns (replies: seq<Reply>)
      requires Valid() && Inv(State(), mmu.g.pageSize) && Shows(State(), mmu.g.pageSize, e)
      requires Runs(State(), mmu.g.pageSize, ops) && forall i :: 0 <= i < |ops| ==> Fits(mmu.g, ops[i])
      modifies this, mmu
      ensures Valid() && State() == After(old(State()), mmu.g.pageSize, ops)
      ensures replies == Replies(old(State()), mmu.g.pageSize, ops)
    {
      hide Served, Inv, Shows;
      var i := 0;
      replies := [];
      assert ops[0..] == ops;
      while i < |ops|
        invariant 0 <= i <= |ops|
        invariant Valid() && Runs(State(), mmu.g.pageSize, ops[i..])
        invariant exists e' :: Inv(State(), mmu.g.pageSize) && Shows(State(), mmu.g.pageSize, e')
        invariant After(State(), mmu.g.pageSize, ops[i..]) == After(old(State()), mmu.g.pageSize, ops)
        invariant replies + Replies(State(), mmu.g.pageSize, ops[i..]) == Replies(old(State()), mmu.g.pageSize, ops)
      {
        assert ops[i..][1..] == ops[i + 1..];
        ghost var e' :| Inv(State(), mmu.g.pageSize) && Shows(State(), mmu.g.pageSize, e');
        StepRefines(State(), mmu.g.pageSize, e', ops[i]);
        FreshMap(State(), mmu.g.pageSize, ops[i]);
        var r := Perform(ops[i]);
        replies := replies + [r];
        i := i + 1;
      }
    }

    /**
     Every run of processes that map, fork, load, store and unmap, carried out
     in the tables, leaves trees that realise the machine, and through which
     the hardware shows memory that was never shared.
     */
    method Execute(ops: seq<CopyOnWrite.Op>, ghost e: Eager) returns (replies: seq<Reply>)
      requires Valid() && Inv(State(), mmu.g.pageSize) && Shows(State(), mmu.g.pageSize, e)
      requires Runs(State(), mmu.g.pageSize, ops) && forall i :: 0 <= i < |ops| ==> Fits(mmu.g, ops[i])
      modifies this, mmu
      ensures Valid() && State() == After(old(State()), mmu.g.pageSize, ops)
      ensures replies == Replies(old(State()), mmu.g.pageSize, ops) && |replies| == |ops|
      ensures replies == EagerRun(e, mmu.g.pageSize, ops, replies).1
      ensures forall s, x :: s in roots && 0 <= x < mmu.g.Reach() ==>
                OnHardware(mmu.g, View(), roots, State(), EagerRun(e, mmu.g.pageSize, ops, replies).0, s, x)
    {
      hide Served, OnHardware, Inv, Shows;
      RunRefines(State(), mmu.g.pageSize, e, ops);
      replies := PerformAll(ops, e);
      AllOnHardware(mmu.g, View(), roots, State(), EagerRun(e, mmu.g.pageSize, ops, replies).0);
    }
  }

  /** From power-on, when there are no address spaces yet. */
  method ExecuteFromStart(mmu: Mmu.Mmu, low: seq<byte>, ops: seq<CopyOnWrite.Op>)
    returns (spaces: PagedSpaces, replies: seq<Reply>)
    requires mmu.Valid() && Runs(VM(map[], map[], map[], map[], low), mmu.g.pageSize, ops)
    requires forall i :: 0 <= i < |ops| ==> Fits(mmu.g, ops[i])
    modifies mmu
    ensures fresh(spaces) && spaces.mmu == mmu && spaces.Valid()
    ensures spaces.State() == After(VM(map[], map[], map[], map[], low), mmu.g.pageSize, ops)
    ensures |replies| == |ops| && replies == EagerRun(map[], mmu.g.pageSize, ops, replies).1
    ensures forall s, x :: s in spaces.roots && 0 <= x < mmu.g.Reach() ==>
              OnHardware(mmu.g, spaces.View(), spaces.roots, spaces.State(),
                EagerRun(map[], mmu.g.pageSize, ops, replies).0, s, x)
  {
    spaces := new PagedSpaces(mmu, low);
    replies := spaces.Execute(ops, map[]);
  }

  /** What is mapped is not loaded yet. */
  lemma FreshMap(vm: VM, size: nat, op: CopyOnWrite.Op)
    requires Inv(vm, size) && Legal(vm, op)
    ensures op.Map? ==> op.a !in vm.ptes
  {
    assert op.Map? && op.a in vm.ptes ==> PteOk(vm, op.a);
  }

  lemma LowPage(p: nat, size: nat)
    requires size > 0
    ensures p * size <= size <==> p <= 1
  {
    if p > 1 {
      MulMonotone(2, p, size);
    }
  }
}
