/** The routines of mmu.c on translation trees held in physical memory. */
module Mmu {
  import opened Common
  import opened Obstruction
  import opened PageTable
  import opened Sparing

  class Mmu {
    const g: Geometry
    var mem: Memory
    var freePage: nat
    ghost var place: map<nat, Place>

    ghost predicate Valid()
      reads this
    {
      && WellFormed(g, mem, place)
      && freePage > 0
      && (forall t :: t in mem || t in place ==> t < freePage)
    }

    ghost function View(r: nat, x: nat): Option<Mapping>
      requires Valid() && r in place
      reads this
    {
      Translate(g, mem, place, r, x)
    }

    /** An MMU without any table yet, over the pages from `freePage` on. */
    constructor (g: Geometry, freePage: nat)
      requires g.Valid() && freePage > 0
      ensures Valid() && this.g == g && mem == map[] && place == map[]
    {
      this.g, mem, this.freePage, place := g, map[], freePage, map[];
    }

    /** mmu_table_alloc: a root of its own, from which nothing is mapped. */
    method AllocRoot() returns (root: nat)
      requires Valid()
      modifies this
      ensures Valid() && root !in old(place) && IsRoot(g, place, root)
      ensures forall x :: 0 <= x ==> View(root, x) == None
      ensures OthersKept(g, old(mem), old(place), mem, place, root) && LeavesKept(g, old(mem), old(place), mem, place)
    {
      root := PageAlloc();
      RootViews(g, mem, place, root);
      RootOthers(g, mem, place, root);
      RootLeaves(g, mem, place, root);
      mem := mem[root := EmptyTable(g.tableSize)];
      place := place[root := Place(root, g.levels - 1, 0)];
    }

    /** A page not in use yet; the page allocator itself is modelled on its own. */
    method PageAlloc() returns (page: nat)
      requires Valid()
      modifies this`freePage
      ensures Valid() && page != 0 && page !in mem && page !in place && page < freePage
    {
      page := freePage;
      freePage := freePage + 1;
    }

    method CreateTable(ghost root: nat, ghost va: nat, t: nat, i: nat)
      requires Valid() && root in place && t in place && place[t].level > 0
      requires i == g.Index(va, place[t].level) && Through(g, mem, place, root, va, t)
      requires WellPlaced(g, mem, place, t) && mem[t][i].kind == Invalid
      modifies this
      ensures Valid() && SameViews(g, old(mem), old(place), mem, place)
      ensures WellPlaced(g, mem, place, t) && mem[t][i].kind == Table && SlotOk(g, mem, place, t, i)
      ensures Through(g, mem, place, root, va, mem[t][i].address)
      ensures Graftable(g, old(mem), old(place), t, i, mem[t][i].address)
      ensures mem == Graft(g, old(mem), t, i, mem[t][i].address) && LeafTablesSame(old(mem), old(place), mem)
      ensures place == GraftPlace(g, old(place), t, i, mem[t][i].address)
    {
      var next := PageAlloc();
      GraftSameViews(g, mem, place, t, i, next);
      GraftKeeps(g, mem, place, t, i, next, root, va);
      place := GraftPlace(g, place, t, i, next);
      mem := mem[next := EmptyTable(g.tableSize)];
      mem := Store(mem, t, i, Descriptor(Table, next, false, false));
      assert WellPlaced(g, mem, place, t);
    }

    /** A table created on the way of a lookup. */
    method HangTable(ghost root: nat, ghost va: nat, ghost length: nat, t: nat, i: nat, ghost mem0: Memory,
        ghost place0: map<nat, Place>, ghost large: bool)
      requires Valid() && WellFormed(g, mem0, place0) && IsRoot(g, place, root) && t in place && place[t].level > 0
      requires i == g.Index(va, place[t].level) && Through(g, mem, place, root, va, t)
      requires WellPlaced(g, mem, place, t) && mem[t][i].kind == Invalid
      requires large ==> va < g.Reach() && !g.Covers(va, length, place[t].level)
      requires large ==> Looked(g, mem0, place0, mem, place, root, va, length)
      modifies this
      ensures Valid() && SameViews(g, old(mem), old(place), mem, place) && LeafTablesSame(old(mem), old(place), mem)
      ensures WellPlaced(g, mem, place, t) && mem[t][i].kind == Table && SlotOk(g, mem, place, t, i)
      ensures Through(g, mem, place, root, va, mem[t][i].address)
      ensures large ==> Looked(g, mem0, place0, mem, place, root, va, length)
    {
      hide Looked;
      CreateTable(root, va, t, i);
      if large {
        g.WithinReach(va);
        ThroughNumber(g, old(mem), old(place), root, va, t);
        g.FrameSplit(va, place[t].level);
        GraftLooked(g, mem0, place0, old(mem), old(place), root, va, length, t, i, mem[t][i].address);
      }
    }

    method GetTable(root: nat, va: nat, length: nat, create: bool, anySize: bool)
      returns (error: int, t: nat, level: nat)
      requires Valid() && IsRoot(g, place, root)
      modifies this
      ensures Valid() && SameViews(g, old(mem), old(place), mem, place) && LeafTablesSame(old(mem), old(place), mem)
      ensures !create ==> mem == old(mem) && place == old(place)
      ensures anySize && va < g.Reach() ==> Looked(g, old(mem), old(place), mem, place, root, va, length)
      ensures error == 0 || error == EEXIST || error == ENOENT
      ensures error == ENOENT ==> !create && View(root, va) == None && place[Walk(g, mem, place, root, va)].level > 0
      ensures error == EEXIST ==>
                !anySize && !g.Covers(va, length, level) && View(root, va).Some?
                  && View(root, va).value.size == g.Chunk(level)
      ensures error == 0 ==>
                && t in place && place[t].root == root && place[t].level == level
                && Through(g, mem, place, root, va, t) && WellPlaced(g, mem, place, t)
                && var d := mem[t][g.Index(va, level)];
                   || (d.kind == Page && (anySize || g.Covers(va, length, level)))
                   || (d.kind == Invalid && (level == 0 || (anySize && g.Covers(va, length, level))))
    {
      ghost var large := anySize && va < g.Reach();
      t, level := root, g.levels - 1;
      while true
        invariant Valid() && SameViews(g, old(mem), old(place), mem, place)
        invariant LeafTablesSame(old(mem), old(place), mem)
        invariant !create ==> mem == old(mem) && place == old(place)
        invariant large ==> Looked(g, old(mem), old(place), mem, place, root, va, length)
        invariant t in place && place[t].root == root && place[t].level == level
        invariant Through(g, mem, place, root, va, t)
        decreases level
      {
        var i := g.Index(va, level);
        assert WellPlaced(g, mem, place, t);
        var covers := g.Covers(va, length, level);
        if mem[t][i].kind == Page {
          WalkEndsThrough(g, mem, place, root, va, t);
          if !covers && !anySize {
            return EEXIST, 0, level;
          }
          return 0, t, level;
        } else if mem[t][i].kind == Invalid && (level == 0 || (covers && anySize)) {
          return 0, t, level;
        }
        if mem[t][i].kind == Invalid {
          if !create {
            WalkEndsThrough(g, mem, place, root, va, t);
            return ENOENT, 0, level;
          }
          HangTable(root, va, length, t, i, old(mem), old(place), large);
        } else {
          ThroughStep(g, mem, place, root, va, t);
          assert SlotOk(g, mem, place, t, i);
        }
        t, level := mem[t][i].address, level - 1;
      }
    }

    /** Store the request's descriptor for the chunk at `va`, and step to the next chunk. */
    method WriteChunk(q: Request, va: nat, t: nat, i: nat, ghost even: bool, ghost seen: nat, ghost mem0: Memory,
        ghost place0: map<nat, Place>)
      requires Valid() && t in place && place[t].root == q.root && i < g.tableSize && WellPlaced(g, mem, place, t)
      requires WellFormed(g, mem0, place0) && IsRoot(g, place0, q.root)
      requires OthersKept(g, mem0, place0, mem, place, q.root) && Spared(g, mem0, place0, mem, place, q.op)
      requires q.op == Map ==> mem[t][i].address == 0
      requires even ==>
                 && GrantedUpTo(g, mem0, place0, mem, place, q, va) && SlotFor(g, mem, place, q.root, seen, t, i, va)
                 && Onward(g, mem0, place0, mem, place, q, va) && q.start <= va < q.End() <= g.Reach()
      modifies this`mem
      ensures Valid() && OthersKept(g, mem0, place0, mem, place, q.root) && Spared(g, mem0, place0, mem, place, q.op)
      ensures WellPlaced(g, old(mem), place, t) && mem == Store(old(mem), t, i, q.Entry(va))
      ensures even ==>
                && (va + g.Chunk(place[t].level) <= q.End() ==>
                    GrantedUpTo(g, mem0, place0, mem, place, q, va + g.Chunk(place[t].level)))
                && Onward(g, mem0, place0, mem, place, q, va + g.Chunk(place[t].level))
                && (i + 1 < g.tableSize ==> SlotFor(g, mem, place, q.root, seen, t, i + 1,
                va + g.Chunk(place[t].level)))
    {
      hide Spared, Onward;
      StoreKeepsOthers(g, mem0, place0, mem, place, q.root, t, i, q.Entry(va));
      SparedStore(g, mem0, place0, mem, place, t, i, q.Entry(va), q.op);
      if even {
        StoreSlot(g, mem, place, q.root, seen, t, i, va, q.Entry(va));
        OnwardStore(g, mem0, place0, mem, place, q, va, seen, t, i);
        if va + g.Chunk(place[t].level) <= q.End() {
          ChunkGrants(g, mem0, place0, mem, Store(mem, t, i, q.Entry(va)), place, q, va, place[t].level);
        }
      }
      mem := Store(mem, t, i, q.Entry(va));
    }

    /** Look `va` up afresh when the current table has run out or its chunks have become too large. */
    method NextSlot(q: Request, va: nat, length: nat, i: nat, t: nat, level: nat, ghost even: bool, ghost clean: bool,
        ghost small: bool, ghost seen: nat, ghost mem0: Memory, ghost place0: map<nat, Place>)
      returns (error: int, t': nat, level': nat, ghost seen': nat)
      requires Valid() && WellFormed(g, mem0, place0) && IsRoot(g, place0, q.root)
      requires OthersKept(g, mem0, place0, mem, place, q.root) && Spared(g, mem0, place0, mem, place, q.op)
      requires q.start <= va && va + length == q.End() <= g.Reach() && length > 0
      requires va % g.pageSize == 0 && q.End() % g.pageSize == 0
      requires clean ==> even && Clean(g, mem0, place0, q)
      requires even ==>
                 && GrantedUpTo(g, mem0, place0, mem, place, q, va) && Onward(g, mem0, place0, mem, place, q, va)
                 && (q.op == Unmap ==> clean)
      requires i + 1 < g.tableSize ==> t in place && place[t].root == q.root && place[t].level == level
      requires even && i + 1 < g.tableSize ==> SlotFor(g, mem, place, q.root, seen, t, i, va)
      requires small ==>
                 && clean && q.ty == Unallocated && SmallPages(g, mem0, place0, q.root, q.start, q.End())
                 && q.root in place && MarkedUpTo(g, mem, place, q.root, q.start, va, q.nocache)
      modifies this
      ensures Valid() && OthersKept(g, mem0, place0, mem, place, q.root) && Spared(g, mem0, place0, mem, place, q.op)
      ensures LeavesKept(g, old(mem), old(place), mem, place)
      ensures IsRoot(g, place, q.root)
      ensures even ==> GrantedUpTo(g, mem0, place0, mem, place, q, va) && Onward(g, mem0, place0, mem, place, q, va)
      ensures error >= 0 ==>
              t' in place && place[t'].root == q.root && place[t'].level == level' && WellPlaced(g, mem, place, t')
      ensures error < 0 ==> error == EEXIST && q.ty == Unallocated && !clean
      ensures error >= 0 && even ==>
                || (q.op == Map && mem[t'][g.Index(va, level')].address != 0)
                || SlotFor(g, mem, place, q.root, seen', t', g.Index(va, level'), va)
      ensures error >= 0 && clean ==>
              SlotFor(g, mem, place, q.root, seen', t', g.Index(va, level'), va) && length >= g.Chunk(level')
      ensures small && (i + 1 < g.tableSize ==> level == 0) ==> level' == 0
      ensures small ==> MarkedUpTo(g, mem, place, q.root, q.start, va, q.nocache)
      ensures clean && q.ty == Fixed ==> Looked(g, old(mem), old(place), mem, place, q.root, va, length)
      ensures i + 1 < g.tableSize && length >= g.Chunk(level) ==>
              mem == old(mem) && place == old(place) && t' == t && level' == level && seen' == seen
      ensures error >= 0 && !(i + 1 < g.tableSize && length >= g.Chunk(level)) ==>
                && mem[t'][g.Index(va, level')].kind != Table
                && ChunkMapping(g, mem[t'][g.Index(va, level')], level') == old(View(q.root, va))
      ensures even && i + 1 < g.tableSize && length >= g.Chunk(level) ==> g.Index(va, level) == i
    {
      hide Spared, Onward, MarkedUpTo, LeafTablesSame;
      error, t', level', seen' := 0, t, level, seen;
      if i + 1 >= g.tableSize || length < g.Chunk(level) {
        error, t', level' := GetTable(q.root, va, length, true, q.ty == Fixed);
        SameViewsLeaves(g, old(mem), old(place), mem, place);
        SparedViews(g, mem0, place0, old(mem), old(place), mem, place, q.op);
        if even {
          OnwardViews(g, mem0, place0, old(mem), old(place), mem, place, q, va);
        }
        if error >= 0 {
          WalkEndsThrough(g, mem, place, q.root, va, t');
        }
        if clean {
          CleanCovers(g, mem0, place0, mem, place, q, va, level');
          assert error >= 0;
          NoPageThere(q, va, t', level', mem0, place0);
          CleanLookup(g, mem0, place0, mem, place, q, va, t');
          FoundSlot(g, mem, place, q.root, t', va);
          seen' := va;
          if small {
            SmallSlot(q.root, va, t', level');
            MarksKept(g, old(mem), old(place), mem, place, q.root, q.start, va, q.nocache);
          }
        } else if even && error >= 0 {
          EvenFound(q, va, t', mem0, place0);
          seen' := va;
        }
      } else if even {
        g.SlotOf(va, level, place[t].number, i);
      }
    }

    lemma EvenFound(q: Request, va: nat, t: nat, mem0: Memory, place0: map<nat, Place>)
      requires Valid() && WellFormed(g, mem0, place0) && q.root in place0 && IsRoot(g, place, q.root)
      requires q.op == Map && Onward(g, mem0, place0, mem, place, q, va) && va < q.End() <= g.Reach()
      requires t in place && place[t].root == q.root && va % g.pageSize == 0
      requires WellPlaced(g, mem, place, t) && Through(g, mem, place, q.root, va, t)
      requires var l := place[t].level;
               var d := mem[t][g.Index(va, l)];
               || (d.kind == Page && (q.ty == Fixed || va % g.Chunk(l) == 0))
               || (d.kind == Invalid && (l == 0 || va % g.Chunk(l) == 0))
      ensures var i := g.Index(va, place[t].level);
              mem[t][i].address == 0 ==> SlotFor(g, mem, place, q.root, va, t, i, va)
    {
      EvenSlot(g, mem, place, q, va, t);
    }

    /** Where there are no large pages, a lookup that does not look for one leads to a leaf table. */
    lemma SmallSlot(root: nat, va: nat, t: nat, level: nat)
      requires Valid() && IsRoot(g, place, root) && t in place && place[t].level == level
      requires SmallPages(g, mem, place, root, va, va + 1)
      requires Through(g, mem, place, root, va, t) && WellPlaced(g, mem, place, t)
      requires mem[t][g.Index(va, level)].kind == Page || (mem[t][g.Index(va, level)].kind == Invalid && level == 0)
      ensures level == 0
    {
      if mem[t][g.Index(va, level)].kind == Page {
        WalkEndsThrough(g, mem, place, root, va, t);
        assert Translate(g, mem, place, root, va).Some?;
        g.ChunkGrows(level);
      }
    }

    /** In a range that is clean to be mapped there is no page, so that the slot found is empty. */
    lemma NoPageThere(q: Request, va: nat, t: nat, level: nat, mem0: Memory, place0: map<nat, Place>)
      requires Valid() && WellFormed(g, mem0, place0) && IsRoot(g, place0, q.root) && IsRoot(g, place, q.root)
      requires Clean(g, mem0, place0, q) && GrantedUpTo(g, mem0, place0, mem, place, q, va)
      requires q.start <= va < q.End() <= g.Reach()
      requires t in place && place[t].root == q.root && place[t].level == level
      requires Through(g, mem, place, q.root, va, t) && WellPlaced(g, mem, place, t)
      ensures q.op == Map ==> mem[t][g.Index(va, level)].kind != Page
    {
      if mem[t][g.Index(va, level)].kind == Page {
        WalkEndsThrough(g, mem, place, q.root, va, t);
        assert Translate(g, mem, place, q.root, va).Some?;
      }
    }

    /** The slot to be mapped is taken, in a clean range, only by a table. */
    lemma OnlyTables(q: Request, va: nat, t: nat, level: nat, i: nat, seen: nat, mem0: Memory, place0: map<nat, Place>)
      requires Valid() && WellFormed(g, mem0, place0) && IsRoot(g, place0, q.root) && IsRoot(g, place, q.root)
      requires Clean(g, mem0, place0, q) && GrantedUpTo(g, mem0, place0, mem, place, q, va)
      requires q.start <= va < q.End() <= g.Reach()
      requires SlotFor(g, mem, place, q.root, seen, t, i, va) && place[t].level == level && i == g.Index(va, level)
      requires q.op == Map && mem[t][i].address != 0
      ensures level > 0 && mem[t][i].kind == Table
    {
      assert SlotOk(g, mem, place, t, i);
      SlotPage(g, mem, place, q.root, seen, t, i, va);
    }

    /** A slot that holds no address is empty. */
    lemma OnlyEmpty(q: Request, va: nat, t: nat, level: nat, i: nat, seen: nat, mem0: Memory, place0: map<nat, Place>)
      requires Valid() && WellFormed(g, mem0, place0) && IsRoot(g, place0, q.root) && IsRoot(g, place, q.root)
      requires Clean(g, mem0, place0, q) && GrantedUpTo(g, mem0, place0, mem, place, q, va)
      requires q.start <= va < q.End() <= g.Reach()
      requires SlotFor(g, mem, place, q.root, seen, t, i, va) && place[t].level == level && i == g.Index(va, level)
      requires q.op == Map && mem[t][i].address == 0
      ensures mem[t][i].kind == Invalid
    {
      assert SlotOk(g, mem, place, t, i);
      SlotPage(g, mem, place, q.root, seen, t, i, va);
    }

    /** ... from the slot `i` of table `t` that there was to step onto before the lookup. */
    method WriteTurn(q: Request, va: nat, t': nat, i': nat, ghost even: bool, ghost clean: bool, ghost small: bool,
        ghost seen: nat, ghost mem0: Memory, ghost place0: map<nat, Place>, ghost t: nat, ghost i: nat,
        ghost mem1: Memory, ghost place1: map<nat, Place>)
      requires Valid() && t' in place && place[t'].root == q.root && i' < g.tableSize && WellPlaced(g, mem, place, t')
      requires WellFormed(g, mem0, place0) && IsRoot(g, place0, q.root) && WellFormed(g, mem1, place1)
      requires IsRoot(g, place, q.root)
      requires OthersKept(g, mem0, place0, mem, place, q.root) && Spared(g, mem0, place0, mem, place, q.op)
      requires q.op == Map ==> mem[t'][i'].address == 0
      requires even ==>
                 && GrantedUpTo(g, mem0, place0, mem, place, q, va) && SlotFor(g, mem, place, q.root, seen, t', i', va)
                 && Onward(g, mem0, place0, mem, place, q, va) && q.start <= va < q.End() <= g.Reach()
      requires clean ==>
                 && even && Clean(g, mem0, place0, q) && va + g.Chunk(place[t'].level) <= q.End()
                 && i' == g.Index(va, place[t'].level)
      requires clean && q.op == Map && q.ty == Fixed ==>
                 && Tracks(g, mem0, place0, mem1, place1, q, va, t, i)
                 && Looked(g, mem1, place1, mem, place, q.root, va, q.End() - va)
                 && Turns(g, mem1, place1, mem, place, q, va, t, i, t', i')
      requires small ==>
                 && clean && place[t'].level == 0 && q.root in place1 && LeavesKept(g, mem1, place1, mem, place)
                 && MarkedUpTo(g, mem, place, q.root, q.start, va, q.nocache)
                 && LeavesUpTo(g, mem0, place0, mem1, place1, q.root, q.start, va)
      modifies this`mem
      ensures Valid() && OthersKept(g, mem0, place0, mem, place, q.root) && Spared(g, mem0, place0, mem, place, q.op)
      ensures even ==>
                && (va + g.Chunk(place[t'].level) <= q.End() ==>
                    GrantedUpTo(g, mem0, place0, mem, place, q, va + g.Chunk(place[t'].level)))
                && Onward(g, mem0, place0, mem, place, q, va + g.Chunk(place[t'].level))
                && (i' + 1 < g.tableSize ==>
                    SlotFor(g, mem, place, q.root, seen, t', i' + 1, va + g.Chunk(place[t'].level)))
      ensures clean && q.op == Map && q.ty == Fixed ==>
              Tracks(g, mem0, place0, mem, place, q, va + g.Chunk(place[t'].level), t', i' + 1)
      ensures small ==>
                && LeavesUpTo(g, mem0, place0, mem, place, q.root, q.start, va + g.pageSize)
                && MarkedUpTo(g, mem, place, q.root, q.start, va + g.pageSize, q.nocache)
    {
      hide Tracks, Looked, GrantedUpTo, OthersKept, Turns, Clean, LeavesUpTo, LeavesKept, Spared, Onward, MarkedUpTo;
      if small {
        MarkTurn(g, mem, place, q.root, q.start, va, seen, t', i', q.Entry(va));
        LeafTurn(g, mem0, place0, mem1, place1, mem, place, q.root, q.start, va, seen, t', i', q.Entry(va));
      }
      if clean && q.op == Map && q.ty == Fixed {
        OnlyEmpty(q, va, t', place[t'].level, i', seen, mem0, place0);
        StoreWellFormed(g, mem, place, t', i', q.Entry(va));
        TurnTracks(g, mem0, place0, mem1, place1, mem, place, q, va, t, i, seen, t', i');
      }
      WriteChunk(q, va, t', i', even, seen, mem0, place0);
    }

    /**
     Where the loop of mmu_table_map stands, at `va`, with slot `i` of table `t` to step onto: what it has done to the
     tree of every space and of its own, on a range that is `even`, one that is `clean`, and one of `small` pages.
     */
    ghost predicate Underway(q: Request, va: nat, i: nat, t: nat, level: nat, even: bool, clean: bool, small: bool,
        seen: nat, mem0: Memory, place0: map<nat, Place>)
      reads this
    {
      && Valid() && WellFormed(g, mem0, place0) && IsRoot(g, place0, q.root) && q.root in place
      && OthersKept(g, mem0, place0, mem, place, q.root) && Spared(g, mem0, place0, mem, place, q.op)
      && (clean ==> even && Clean(g, mem0, place0, q))
      && (even ==>
            && GrantedUpTo(g, mem0, place0, mem, place, q, va) && Onward(g, mem0, place0, mem, place, q, va)
            && (q.op == Unmap ==> clean))
      && (i + 1 < g.tableSize ==>
            && t in place && place[t].root == q.root && place[t].level == level
            && (even ==> SlotFor(g, mem, place, q.root, seen, t, i, va)))
      && (clean && q.op == Map && q.ty == Unallocated ==> small)
      && (small ==>
            && clean && q.ty == Unallocated && SmallPages(g, mem0, place0, q.root, q.start, q.End())
            && (i + 1 < g.tableSize ==> level == 0)
            && LeavesUpTo(g, mem0, place0, mem, place, q.root, q.start, va)
            && MarkedUpTo(g, mem, place, q.root, q.start, va, q.nocache))
      && (clean && q.op == Map && q.ty == Fixed ==> Tracks(g, mem0, place0, mem, place, q, va, t, i))
    }

    lemma Starts(q: Request, t: nat, level: nat, even: bool, clean: bool, small: bool, seen: nat)
      requires Valid() && IsRoot(g, place, q.root)
      requires clean == Clean(g, mem, place, q) && even == Even(g, mem, place, q)
      requires small == (clean && q.ty == Unallocated && SmallPages(g, mem, place, q.root, q.start, q.End()))
      ensures Underway(q, q.start, g.tableSize, t, level, even, clean, small, seen, mem, place)
    {
      RunStarts(g, mem, place, q);
      CleanSmall(g, mem, place, q);
      TracksStart(g, mem, place, q, t);
      hide Tracks, Clean, Even, Spared, Onward, GrantedUpTo, OthersKept;
    }

    /** How mmu_table_map leaves the trees, with each outcome. */
    ghost predicate Left(q: Request, outcome: Outcome, even: bool, clean: bool, small: bool, mem0: Memory,
        place0: map<nat, Place>)
      reads this
    {
      && Valid() && WellFormed(g, mem0, place0) && q.root in place0 && q.root in place
      && OthersKept(g, mem0, place0, mem, place, q.root) && Spared(g, mem0, place0, mem, place, q.op)
      && match outcome
         case Done =>
           && (even ==> GrantedUpTo(g, mem0, place0, mem, place, q, q.End()))
           && (even && q.op == Map ==> Unbacked(g, mem0, place0, q.root, q.start, q.End()))
           && (small ==>
                 && LeavesUpTo(g, mem0, place0, mem, place, q.root, q.start, q.End())
                 && MarkedUpTo(g, mem, place, q.root, q.start, q.End(), q.nocache))
           && (clean && q.op == Map && q.ty == Fixed ==> !Obstructed(g, mem0, place0, q))
         case Error(code) =>
           && code == EEXIST
           && (even ==>
                 q.op == Map && exists va :: q.start <= va < q.End() && GrantedUpTo(g, mem0, place0, mem, place, q, va))
           && (clean ==> q.ty == Fixed && StoppedShort(g, mem0, place0, mem, place, q))
         case Panic => !clean
    }

    lemma Ends(q: Request, i: nat, t: nat, level: nat, even: bool, clean: bool, small: bool, seen: nat, mem0: Memory,
        place0: map<nat, Place>)
      requires Underway(q, q.End(), i, t, level, even, clean, small, seen, mem0, place0)
      ensures Left(q, Done, even, clean, small, mem0, place0)
    {
      if clean && q.op == Map && q.ty == Fixed {
        TracksDone(g, mem0, place0, mem, place, q, t, i);
      }
      hide Tracks, Clean, Spared, GrantedUpTo, OthersKept, Obstructed;
    }

    /** One turn of mmu_table_map's loop, up to the panic check. */
    method MapStep(q: Request, va: nat, length: nat, i: nat, t: nat, level: nat, ghost even: bool, ghost clean: bool,
        ghost small: bool, ghost seen: nat, ghost mem0: Memory, ghost place0: map<nat, Place>)
      returns (error: int, i': nat, t': nat, level': nat, ghost seen': nat)
      requires Underway(q, va, i, t, level, even, clean, small, seen, mem0, place0)
      requires q.start <= va && va + length == q.End() <= g.Reach() && length > 0
      requires va % g.pageSize == 0 && q.End() % g.pageSize == 0
      modifies this
      ensures error < 0 ==> Left(q, Error(error), even, clean, small, mem0, place0)
      ensures error >= 0 && length < g.Chunk(level') ==> Left(q, Panic, even, clean, small, mem0, place0)
      ensures error >= 0 && length >= g.Chunk(level') ==>
              Underway(q, va + g.Chunk(level'), i' + 1, t', level', even, clean, small, seen', mem0, place0)
      ensures var m := old(View(q.root, va));
              i + 1 >= g.tableSize && q.ty == Fixed && m.Some? && m.value.base == 0 ==>
                error >= 0 && g.Chunk(level') == m.value.size
    {
      hide Tracks, Looked, StoppedShort, GrantedUpTo, OthersKept, LeavesUpTo, LeavesKept, Spared, Onward, MarkedUpTo;
      i' := i;
      error, t', level', seen' := NextSlot(q, va, length, i, t, level, even, clean, small, seen, mem0, place0);
      if error < 0 {
        return;
      }
      i' := g.Index(va, level');
      if q.op == Map && mem[t'][i'].address != 0 {
        if clean {
          OnlyTables(q, va, t', level', i', seen', mem0, place0);
          TurnStopsShort(g, mem0, place0, mem, place, q, va, t, i, seen);
        }
        error := EEXIST;
        return;
      }
      WriteTurn(q, va, t', i', even, clean, small, seen', mem0, place0, t, i, old(mem), old(place));
    }

    /** The loop of mmu_table_map. */
    method MapLoop(q: Request, ghost even: bool, ghost clean: bool, ghost small: bool, ghost mem0: Memory,
        ghost place0: map<nat, Place>) returns (outcome: Outcome)
      requires Underway(q, q.start, g.tableSize, 0, 0, even, clean, small, q.start, mem0, place0)
      requires q.start % g.pageSize == 0 && q.size % g.pageSize == 0 && q.End() <= g.Reach()
      modifies this
      ensures Left(q, outcome, even, clean, small, mem0, place0)
      ensures var m := old(View(q.root, q.start));
              q.ty == Fixed && m.Some? && m.value.base == 0 && 0 < q.size <= m.value.size ==>
                outcome == if q.size == m.value.size then Done else Panic
    {
      ghost var seen: nat := q.start;
      ghost var m := View(q.root, q.start);
      ghost var whole := q.ty == Fixed && m.Some? && m.value.base == 0 && 0 < q.size <= m.value.size;
      var va: nat, length: nat, i: nat := q.start, q.size, g.tableSize;
      var error, t: nat, level: nat := 0, 0, 0;
      SumMultiple(q.start, q.size, g.pageSize);
      hide Underway, Left, Valid, Translate;
      while length > 0
        invariant Underway(q, va, i, t, level, even, clean, small, seen, mem0, place0)
        invariant q.start <= va && va + length == q.End() && va % g.pageSize == 0 && length % g.pageSize == 0
        invariant whole ==>
                    || (length == 0 && q.size == m.value.size)
                    || (va == q.start && i == g.tableSize && mem == old(mem) && place == old(place))
      {
        error, i, t, level, seen := MapStep(q, va, length, i, t, level, even, clean, small, seen, mem0, place0);
        if error < 0 {
          return Error(error);
        }
        if length < g.Chunk(level) {
          return Panic;
        }
        g.Advance(va, length, level);
        length := length - g.Chunk(level);
        va := va + g.Chunk(level);
        i := i + 1;
      }
      Ends(q, i, t, level, even, clean, small, seen, mem0, place0);
      return Done;
    }

    /** mmu_table_map. */
    method MapRange(q: Request) returns (outcome: Outcome)
      requires Valid() && IsRoot(g, place, q.root)
      requires q.start % g.pageSize == 0 && q.size % g.pageSize == 0 && q.End() <= g.Reach()
      modifies this
      ensures Valid() && q.root in place && OthersKept(g, old(mem), old(place), mem, place, q.root)
      ensures Spared(g, old(mem), old(place), mem, place, q.op)
      ensures old(Even(g, mem, place, q)) && outcome == Done ==>
              GrantedUpTo(g, old(mem), old(place), mem, place, q, q.End())
      ensures old(Even(g, mem, place, q)) && outcome == Done && q.op == Map ==>
              old(Unbacked(g, mem, place, q.root, q.start, q.End()))
      ensures old(Even(g, mem, place, q)) && outcome.Error? ==>
              outcome == Error(EEXIST) && q.op == Map
                && exists va :: q.start <= va < q.End() && GrantedUpTo(g, old(mem), old(place), mem, place, q, va)
      ensures var m := old(View(q.root, q.start));
              q.ty == Fixed && m.Some? && m.value.base == 0 && 0 < q.size <= m.value.size ==>
                outcome == if q.size == m.value.size then Done else Panic
      ensures old(Clean(g, mem, place, q)) ==>
                outcome == Done || (outcome == Error(EEXIST) && q.op == Map && q.ty == Fixed)
      ensures old(Clean(g, mem, place, q)) && q.op == Map && q.ty == Fixed ==>
              (outcome == Done <==> !old(Obstructed(g, mem, place, q)))
      ensures old(Clean(g, mem, place, q)) && q.ty == Unallocated
              && old(SmallPages(g, mem, place, q.root, q.start, q.End())) ==>
                && LeavesUpTo(g, old(mem), old(place), mem, place, q.root, q.start, q.End())
                && MarkedUpTo(g, mem, place, q.root, q.start, q.End(), q.nocache)
      ensures old(Clean(g, mem, place, q)) && outcome != Done ==>
              StoppedShort(g, old(mem), old(place), mem, place, q)
    {
      ghost var clean, even := Clean(g, mem, place, q), Even(g, mem, place, q);
      ghost var small := clean && q.ty == Unallocated && SmallPages(g, mem, place, q.root, q.start, q.End());
      Starts(q, 0, 0, even, clean, small, q.start);
      RunStarts(g, mem, place, q);
      hide Clean, Even, Underway, StoppedShort, Obstructed, Spared, GrantedUpTo, OthersKept, Unbacked, LeavesUpTo,
           SmallPages, MarkedUpTo;
      outcome := MapLoop(q, even, clean, small, mem, place);
      if clean && outcome.Error? {
        StoppedObstructed(g, old(mem), old(place), mem, place, q);
      }
    }

    /** The walk of the hardware. */
    method WalkTables(root: nat, va: nat) returns (m: Option<Mapping>)
      requires Valid() && root in place && place[root].level == g.levels - 1
      ensures m == View(root, va)
    {
      var t: nat, level: nat := root, g.levels - 1;
      assert WellPlaced(g, mem, place, t);
      while mem[t][g.Index(va, level)].kind == Table
        invariant t in place && place[t].level == level && WellPlaced(g, mem, place, t)
        invariant Walk(g, mem, place, root, va) == Walk(g, mem, place, t, va)
        decreases level
      {
        assert SlotOk(g, mem, place, t, g.Index(va, level));
        t, level := mem[t][g.Index(va, level)].address, level - 1;
        assert WellPlaced(g, mem, place, t);
      }
      return ChunkMapping(g, mem[t][g.Index(va, level)], level);
    }

    /** mmu_table_get_page. */
    method GetPage(root: nat, va: nat) returns (error: int, phys: nat, size: nat)
      requires Valid() && IsRoot(g, place, root) && va % g.pageSize == 0
      modifies this
      ensures Valid() && mem == old(mem) && place == old(place)
      ensures error == 0 || error == ENOENT
      ensures View(root, va).Some? ==>
                var m := View(root, va).value;
                && (error == 0 <==> m.base != 0 || va <= m.size)
                && (error == 0 ==> size == m.size && phys == m.base)
      ensures View(root, va) == None ==> (error == 0 <==>
              va <= g.pageSize && place[Walk(g, mem, place, root, va)].level == 0)
      ensures View(root, va) == None && error == 0 ==> phys == 0 && size == g.pageSize
    {
      var t, level;
      phys, size := 0, 0;
      error, t, level := GetTable(root, va, g.pageSize, false, true);
      if error < 0 {
        return;
      }
      var entry := mem[t][g.Index(va, level)];
      assert SlotOk(g, mem, place, t, g.Index(va, level));
      WalkEndsThrough(g, mem, place, root, va, t);
      g.ChunkGrows(level);
      if entry.address == 0 && va > g.Chunk(level) {
        return ENOENT, 0, 0;
      }
      return 0, entry.address, g.Chunk(level);
    }

    /** mmu_table_set_page. */
    method SetPage(root: nat, va: nat, phys: nat, pageSize: nat, write: bool) returns (error: int)
      requires Valid() && IsRoot(g, place, root) && va % g.pageSize == 0 && va < g.Reach()
      modifies this
      ensures Valid() && OthersKept(g, old(mem), old(place), mem, place, root) && root in place
      ensures error == 0 || error == EFAULT
      ensures error == EFAULT ==> forall x :: 0 <= x < g.Reach() ==> View(root, x) == old(View(root, x))
      ensures pageSize == g.pageSize && (old(View(root, va)).Some? ==> old(View(root, va)).value.size == pageSize) ==>
              error == 0
      ensures pageSize == g.pageSize ==> LeavesKept(g, old(mem), old(place), mem, place)
      ensures error == 0 && pageSize > 0 && va % pageSize == 0 ==>
                && (forall x :: va <= x < va + pageSize ==>
                      View(root, x).Some? && View(root, x).value.base == phys && View(root, x).value.size == pageSize
                        && View(root, x).value.writeProtect == !write)
                && (forall x :: 0 <= x < g.Reach() && !(va <= x < va + pageSize) ==>
                View(root, x) == old(View(root, x)))
      ensures error == 0 && pageSize > 0 && va % pageSize == 0 ==>
                View(root, va).Some? && (old(View(root, va)).Some? ==>
                  View(root, va).value.cacheInhibit == old(View(root, va)).value.cacheInhibit)
      ensures error == 0 && pageSize > 0 && va % pageSize == 0 && old(HasLeaf(g, mem, place, root, va)) ==>
                old(Marked(g, mem, place, root, va, true)) == View(root, va).value.cacheInhibit
    {
      var t, level;
      error, t, level := GetTable(root, va, g.pageSize, true, true);
      SameViewsLeaves(g, old(mem), old(place), mem, place);
      WalkEndsThrough(g, mem, place, root, va, t);
      FoundBit(g, old(mem), old(place), mem, place, root, va, t);
      g.ChunkGrows(level);
      if g.Chunk(level) != pageSize {
        return EFAULT;
      }
      hide Translate, LeavesKept, OthersKept, Marked, HasLeaf, LeafTablesSame;
      StorePage(root, va, t, level, phys, write);
    }

    /** The descriptor that mmu_table_set_page stores in the slot it has found. */
    method StorePage(root: nat, va: nat, t: nat, level: nat, phys: nat, write: bool)
      requires Valid() && IsRoot(g, place, root) && va < g.Reach()
      requires t in place && place[t].root == root && place[t].level == level && WellPlaced(g, mem, place, t)
      requires Through(g, mem, place, root, va, t)
      modifies this`mem
      ensures Valid() && OthersKept(g, old(mem), place, mem, place, root)
      ensures level == 0 ==> LeavesKept(g, old(mem), place, mem, place)
      ensures va % g.Chunk(level) == 0 ==>
                var m := Mapping(phys, g.Chunk(level), !write, old(mem[t][g.Index(va, level)].cacheInhibit));
                && va + g.Chunk(level) <= g.Reach()
                && (forall x :: va <= x < va + g.Chunk(level) ==> View(root, x) == Some(m))
                && (forall x :: 0 <= x < g.Reach() && !(va <= x < va + g.Chunk(level)) ==>
                      View(root, x) == old(View(root, x)))
    {
      var i := g.Index(va, level);
      var d := Descriptor(Page, phys, !write, mem[t][i].cacheInhibit);
      StoreKeepsOthers(g, mem, place, mem, place, root, t, i, d);
      if va % g.Chunk(level) == 0 {
        FoundSlot(g, mem, place, root, t, va);
        StoreSetsChunk(g, mem, place, root, va, t, i, va, d);
        ChunkFitsReach(g, va, level);
      }
      if level == 0 {
        LeafStoreKeeps(g, mem, place, t, i, d);
      }
      mem := Store(mem, t, i, d);
    }

    /** get_table on both sides; among pages of PAGE_SIZE it finds leaf tables and cannot fail. */
    method BothTables(dest: nat, src: nat, va: nat, length: nat)
      returns (error: int, td: nat, ts: nat, srcLevel: nat, destLevel: nat)
      requires Valid() && IsRoot(g, place, dest) && IsRoot(g, place, src) && dest != src
      requires va % g.pageSize == 0 && length >= g.pageSize && va < g.Reach()
      requires SmallPages(g, mem, place, src, va, va + 1) && SmallPages(g, mem, place, dest, va, va + 1)
      modifies this
      ensures Valid() && SameViews(g, old(mem), old(place), mem, place)
      ensures error == 0 && srcLevel == destLevel == 0
      ensures SlotFor(g, mem, place, src, va, ts, g.Index(va, 0), va) && place[ts].level == 0
      ensures SlotFor(g, mem, place, dest, va, td, g.Index(va, 0), va) && place[td].level == 0
    {
      td, destLevel := 0, 0;
      error, ts, srcLevel := GetTable(src, va, length, true, false);
      LeafLookup(src, va, ts, srcLevel, length, error);
      if error < 0 {
        return;
      }
      FoundSlot(g, mem, place, src, ts, va);
      ghost var mem1, place1 := mem, place;
      error, td, destLevel := GetTable(dest, va, length, true, false);
      LeafLookup(dest, va, td, destLevel, length, error);
      if error < 0 {
        return;
      }
      FoundSlot(g, mem, place, dest, td, va);
      assert Through(g, mem, place, src, va, ts) && WellPlaced(g, mem, place, ts);
    }

    lemma LeafLookup(root: nat, va: nat, t: nat, level: nat, length: nat, error: int)
      requires Valid() && IsRoot(g, place, root) && SmallPages(g, mem, place, root, va, va + 1)
      requires va % g.pageSize == 0 && length >= g.pageSize
      requires error == 0 || error == EEXIST
      requires error == EEXIST ==>
               !g.Covers(va, length, level) && View(root, va).Some? && View(root, va).value.size == g.Chunk(level)
      requires error == 0 ==>
                 && t in place && place[t].level == level && Through(g, mem, place, root, va, t)
                 && WellPlaced(g, mem, place, t)
                 && (mem[t][g.Index(va, level)].kind == Page
                 || (mem[t][g.Index(va, level)].kind == Invalid && level == 0))
      ensures error == 0 && level == 0
    {
      g.ChunkGrows(level);
      if error == 0 && mem[t][g.Index(va, level)].kind == Page {
        WalkEndsThrough(g, mem, place, root, va, t);
        assert Translate(g, mem, place, root, va).value.size == g.Chunk(level);
      }
    }

    /** The loop head of mmu_table_copy: look both tables up when the current ones have run out. */
    method NextTables(dest: nat, src: nat, va: nat, length: nat, i: nat, td: nat, ts: nat, srcLevel: nat,
        ghost cow: bool, ghost start: nat, ghost seen: nat, ghost mem0: Memory, ghost place0: map<nat, Place>)
      returns (error: int, td': nat, ts': nat, srcLevel': nat, ghost seen': nat)
      requires Valid() && WellFormed(g, mem0, place0) && IsRoot(g, place0, dest) && IsRoot(g, place0, src)
      requires dest != src
      requires va % g.pageSize == 0 && length >= g.pageSize && start <= va && va + length <= g.Reach() && srcLevel == 0
      requires CopiedUpTo(g, mem0, place0, mem, place, dest, src, cow, start, va)
      requires SmallPages(g, mem0, place0, src, va, va + 1) && SmallPages(g, mem0, place0, dest, va, va + 1)
      requires i + 1 < g.tableSize ==>
                 && SlotFor(g, mem, place, dest, seen, td, i, va) && SlotFor(g, mem, place, src, seen, ts, i, va)
                 && place[td].level == place[ts].level == 0
      modifies this
      ensures Valid() && CopiedUpTo(g, mem0, place0, mem, place, dest, src, cow, start, va)
      ensures LeavesKept(g, old(mem), old(place), mem, place)
      ensures error == 0 && srcLevel' == 0 && IsRoot(g, place, dest) && IsRoot(g, place, src)
      ensures SlotFor(g, mem, place, dest, seen', td', g.Index(va, 0), va)
      ensures SlotFor(g, mem, place, src, seen', ts', g.Index(va, 0), va)
      ensures place[td'].level == place[ts'].level == 0
    {
      error, td', ts', srcLevel', seen' := 0, td, ts, srcLevel, seen;
      if i + 1 >= g.tableSize || length < g.Chunk(srcLevel) {
        var destLevel;
        error, td', ts', srcLevel', destLevel := BothTables(dest, src, va, length);
        SameViewsLeaves(g, old(mem), old(place), mem, place);
        if error == 0 && srcLevel' != destLevel {
          error := EFAULT;
        }
        seen' := va;
      } else {
        g.SlotOf(va, 0, place[ts].number, i);
      }
    }

    /** One turn of mmu_table_copy's loop, up to the panic check. */
    method CopyStep(dest: nat, src: nat, va: nat, length: nat, i: nat, td: nat, ts: nat, srcLevel: nat,
        cow: bool, ghost start: nat, ghost seen: nat, ghost mem0: Memory, ghost place0: map<nat, Place>)
      returns (error: int, i': nat, td': nat, ts': nat, srcLevel': nat, ghost seen': nat)
      requires Valid() && WellFormed(g, mem0, place0) && IsRoot(g, place0, dest) && IsRoot(g, place0, src)
      requires IsRoot(g, place, dest) && IsRoot(g, place, src) && dest != src
      requires va % g.pageSize == 0 && length >= g.pageSize && start <= va && va + length <= g.Reach() && srcLevel == 0
      requires CopiedUpTo(g, mem0, place0, mem, place, dest, src, cow, start, va)
      requires LeavesUpTo(g, mem0, place0, mem, place, dest, start, va)
      requires SmallPages(g, mem0, place0, src, va, va + 1) && SmallPages(g, mem0, place0, dest, va, va + 1)
      requires i + 1 < g.tableSize ==>
                 && SlotFor(g, mem, place, dest, seen, td, i, va) && SlotFor(g, mem, place, src, seen, ts, i, va)
                 && place[td].level == place[ts].level == 0
      modifies this
      ensures Valid() && error == 0 && srcLevel' == 0 && IsRoot(g, place, dest) && IsRoot(g, place, src)
      ensures CopiedUpTo(g, mem0, place0, mem, place, dest, src, cow, start, va + g.pageSize)
      ensures LeavesUpTo(g, mem0, place0, mem, place, dest, start, va + g.pageSize)
      ensures i' + 1 < g.tableSize ==>
                && SlotFor(g, mem, place, dest, seen', td', i' + 1, va + g.pageSize)
                && SlotFor(g, mem, place, src, seen', ts', i' + 1, va + g.pageSize)
                && place[td'].level == place[ts'].level == 0
    {
      hide SmallPages, CopiedUpTo, LeavesUpTo, LeavesKept;
      i' := i;
      error, td', ts', srcLevel', seen' := NextTables(dest, src, va, length, i, td, ts, srcLevel, cow, start, seen,
        mem0, place0);
      if error < 0 {
        return;
      }
      i' := g.Index(va, srcLevel');
      CopyEntryCopies(g, mem0, place0, mem, place, dest, src, cow, start, seen', td', ts', i', va);
      CopyEntryLeaves(g, mem0, place0, old(mem), old(place), mem, place, dest, src, cow, start, va, seen', td', ts',
        i');
      mem := CopyEntry(mem, td', ts', i', cow);
    }

    /** mmu_table_copy for segments held in pages of PAGE_SIZE. */
    method CopyRange(dest: nat, src: nat, start: nat, size: nat, cow: bool) returns (outcome: Outcome)
      requires Valid() && IsRoot(g, place, dest) && IsRoot(g, place, src) && dest != src
      requires start % g.pageSize == 0 && size % g.pageSize == 0 && start + size <= g.Reach()
      requires SmallPages(g, mem, place, src, start, start + size)
      requires SmallPages(g, mem, place, dest, start, start + size)
      modifies this
      ensures Valid() && outcome == Done
      ensures CopiedUpTo(g, old(mem), old(place), mem, place, dest, src, cow, start, start + size)
      ensures dest in place && LeavesUpTo(g, old(mem), old(place), mem, place, dest, start, start + size)
    {
      var va: nat, length: nat, i: nat := start, size, g.tableSize;
      var error, td: nat, ts: nat, srcLevel: nat := 0, 0, 0, 0;
      ghost var seen: nat := start;
      while length > 0
        invariant Valid() && start <= va && va + length == start + size
        invariant va % g.pageSize == 0 && length % g.pageSize == 0
        invariant IsRoot(g, place, dest) && IsRoot(g, place, src)
        invariant CopiedUpTo(g, old(mem), old(place), mem, place, dest, src, cow, start, va)
        invariant LeavesUpTo(g, old(mem), old(place), mem, place, dest, start, va)
        invariant i + 1 < g.tableSize ==>
                    && SlotFor(g, mem, place, dest, seen, td, i, va) && SlotFor(g, mem, place, src, seen, ts, i, va)
                    && place[td].level == place[ts].level == 0
        invariant srcLevel == 0
      {
        g.Advance(va, length, 0);
        error, i, td, ts, srcLevel, seen := CopyStep(dest, src, va, length, i, td, ts, srcLevel, cow, start, seen,
          old(mem), old(place));
        if error < 0 {
          return Error(error);
        }
        if length < g.Chunk(srcLevel) {
          return Panic;
        }
        length := length - g.Chunk(srcLevel);
        va := va + g.Chunk(srcLevel);
        i := i + 1;
      }
      return Done;
    }
  }
}
