/**
 What mmu_table_map leaves alone, on ranges that are mapped already as well as on those that are not. A slot that holds
 an address is not mapped over; one that holds a page at physical address 0 is taken for empty.
 */
module Sparing {
  import opened Common
  import opened PageTable

  /** A translation to a page that mmu_table_map sees. */
  predicate Backed(m: Option<Mapping>) {
    m.Some? && m.value.base != 0
  }

  /** A map leaves a backed address as it is, and an unmap takes translations away and gives none. */
  predicate MayBecome(op: Op, m: Option<Mapping>, m': Option<Mapping>) {
    match op
    case Map => Backed(m) ==> m' == m
    case Unmap => m' == m || m' == None
  }

  ghost predicate Spared(g: Geometry, mem0: Memory, place0: map<nat, Place>, mem: Memory, place: map<nat, Place>,
      op: Op)
    requires WellFormed(g, mem0, place0) && WellFormed(g, mem, place)
  {
    && (forall p :: p in place0 ==> p in place && place[p] == place0[p])
    && (forall r, x: nat :: r in place0 ==>
          MayBecome(op, Translate(g, mem0, place0, r, x), Translate(g, mem, place, r, x)))
  }

  lemma SparedViews(g: Geometry, mem0: Memory, place0: map<nat, Place>, mem: Memory, place: map<nat, Place>,
      mem': Memory, place': map<nat, Place>, op: Op)
    requires WellFormed(g, mem0, place0) && WellFormed(g, mem, place) && WellFormed(g, mem', place')
    requires Spared(g, mem0, place0, mem, place, op) && SameViews(g, mem, place, mem', place')
    ensures Spared(g, mem0, place0, mem', place', op)
  {
  }

  /** One store in a slot that holds no address, or of no page. */
  lemma {:induction false} StoreSpares(g: Geometry, mem: Memory, place: map<nat, Place>, t: nat, i: nat,
      d: Descriptor, op: Op, s: nat, x: nat)
    requires WellFormed(g, mem, place) && t in place && i < g.tableSize && Leaf(d) && s in place
    requires WellPlaced(g, mem, place, t) && WellFormed(g, Store(mem, t, i, d), place)
    requires op == Map ==> mem[t][i].address == 0
    requires op == Unmap ==> d.kind != Page
    ensures MayBecome(op, Translate(g, mem, place, s, x), Translate(g, Store(mem, t, i, d), place, s, x))
    decreases place[s].level
  {
    var mem' := Store(mem, t, i, d);
    assert WellPlaced(g, mem, place, s);
    assert WellPlaced(g, mem', place, s);
    var j := g.Index(x, place[s].level);
    assert SlotOk(g, mem, place, s, j);
    assert forall p :: p in place ==> WellPlaced(g, mem, place, p);
    if mem[s][j].kind == Table && !(s == t && i == j) {
      StoreSpares(g, mem, place, t, i, d, op, mem[s][j].address, x);
    }
  }

  lemma SparedStore(g: Geometry, mem0: Memory, place0: map<nat, Place>, mem: Memory, place: map<nat, Place>,
      t: nat, i: nat, d: Descriptor, op: Op)
    requires WellFormed(g, mem0, place0) && WellFormed(g, mem, place) && Spared(g, mem0, place0, mem, place, op)
    requires t in place && i < g.tableSize && Leaf(d) && WellPlaced(g, mem, place, t)
    requires op == Map ==> mem[t][i].address == 0
    requires op == Unmap ==> d.kind != Page
    ensures WellFormed(g, Store(mem, t, i, d), place)
    ensures Spared(g, mem0, place0, Store(mem, t, i, d), place, op)
  {
    StoreWellFormed(g, mem, place, t, i, d);
    forall r, x: nat | r in place0
      ensures MayBecome(op, Translate(g, mem0, place0, r, x), Translate(g, Store(mem, t, i, d), place, r, x))
    {
      StoreSpares(g, mem, place, t, i, d, op, r, x);
    }
  }

  // ----- where a run goes on chunk by chunk -----

  /** `x` lies inside a page at physical address 0, but not at its first byte. */
  ghost predicate InsideZero(g: Geometry, mem: Memory, place: map<nat, Place>, r: nat, x: nat)
    requires WellFormed(g, mem, place) && r in place
  {
    Straddled(g, mem, place, r, x) && !Backed(Translate(g, mem, place, r, x))
  }

  /** A map that is not fixed, or does not begin inside the page at physical address 0; an unmap of a clean range. */
  ghost predicate Even(g: Geometry, mem: Memory, place: map<nat, Place>, q: Request)
    requires WellFormed(g, mem, place) && q.root in place
  {
    match q.op
    case Map => q.ty == Fixed && q.size > 0 ==> !InsideZero(g, mem, place, q.root, q.start)
    case Unmap => Clean(g, mem, place, q)
  }

  lemma CleanEven(g: Geometry, mem: Memory, place: map<nat, Place>, q: Request)
    requires WellFormed(g, mem, place) && q.root in place && Clean(g, mem, place, q)
    ensures Even(g, mem, place, q)
  {
  }

  /** The slot that a lookup for a map comes to holds an address, or its chunk begins where it was looked up. */
  lemma EvenSlot(g: Geometry, mem: Memory, place: map<nat, Place>, q: Request, va: nat, t: nat)
    requires WellFormed(g, mem, place) && IsRoot(g, place, q.root) && t in place && place[t].root == q.root
    requires va < g.Reach() && va % g.pageSize == 0
    requires WellPlaced(g, mem, place, t) && Through(g, mem, place, q.root, va, t)
    requires q.ty == Fixed ==> !InsideZero(g, mem, place, q.root, va)
    requires var l := place[t].level;
             var d := mem[t][g.Index(va, l)];
             || (d.kind == Page && (q.ty == Fixed || va % g.Chunk(l) == 0))
             || (d.kind == Invalid && (l == 0 || va % g.Chunk(l) == 0))
    ensures var i := g.Index(va, place[t].level);
            mem[t][i].address == 0 ==> SlotFor(g, mem, place, q.root, va, t, i, va)
  {
    WalkEndsThrough(g, mem, place, q.root, va, t);
    if mem[t][g.Index(va, place[t].level)].address == 0 {
      FoundSlot(g, mem, place, q.root, t, va);
    }
  }

  /** Nothing in the range was backed. */
  ghost predicate Unbacked(g: Geometry, mem: Memory, place: map<nat, Place>, r: nat, start: nat, end: nat)
    requires WellFormed(g, mem, place) && r in place
  {
    forall x :: start <= x < end ==> !Backed(Translate(g, mem, place, r, x))
  }

  /** A chunk whose slot holds no address is backed nowhere. */
  lemma UnbackedOn(g: Geometry, mem0: Memory, place0: map<nat, Place>, mem: Memory, place: map<nat, Place>, q: Request,
      va: nat, seen: nat, t: nat, i: nat)
    requires WellFormed(g, mem0, place0) && WellFormed(g, mem, place) && q.root in place0 && IsRoot(g, place, q.root)
    requires GrantedUpTo(g, mem0, place0, mem, place, q, va) && Unbacked(g, mem0, place0, q.root, q.start, va)
    requires SlotFor(g, mem, place, q.root, seen, t, i, va) && mem[t][i].address == 0 && va < g.Reach()
    ensures Unbacked(g, mem0, place0, q.root, q.start, va + g.Chunk(place[t].level))
  {
    var l := place[t].level;
    assert SlotOk(g, mem, place, t, i);
    assert forall p :: p in place ==> WellPlaced(g, mem, place, p);
    assert mem[t][i].kind != Table;
    SlotView(g, mem, place, q.root, seen, t, i, va);
    ChunkFitsReach(g, va, l);
    forall x | q.start <= x < va + g.Chunk(l)
      ensures !Backed(Translate(g, mem0, place0, q.root, x))
    {
      if va <= x {
        assert Translate(g, mem, place, q.root, x) == Translate(g, mem0, place0, q.root, x);
      }
    }
  }

  /** After a chunk that was set, no page begins before what follows it. */
  lemma EvenOn(g: Geometry, mem: Memory, mem': Memory, place: map<nat, Place>, root: nat, va: nat, l: nat,
      d: Descriptor)
    requires WellFormed(g, mem, place) && WellFormed(g, mem', place) && IsRoot(g, place, root)
    requires ChunkSet(g, mem, mem', place, root, va, l, d) && va % g.Chunk(l) == 0 && va + g.Chunk(l) < g.Reach()
    ensures !Straddled(g, mem', place, root, va + g.Chunk(l))
  {
    var x := va + g.Chunk(l);
    assert Translate(g, mem', place, root, x - 1) == ChunkMapping(g, d, l);
    g.NextChunk(va, l);
    if Straddled(g, mem', place, root, x) {
      InsideShared(g, mem', place, root, x);
      assert false;
    }
  }

  /** Where an even map stands, at `va`: it has passed nothing that was backed, and stands at the start of a page. */
  ghost predicate Onward(g: Geometry, mem0: Memory, place0: map<nat, Place>, mem: Memory, place: map<nat, Place>,
      q: Request, va: nat)
    requires WellFormed(g, mem0, place0) && WellFormed(g, mem, place) && q.root in place0 && q.root in place
  {
    q.op == Map ==>
      && Unbacked(g, mem0, place0, q.root, q.start, va)
      && (q.ty == Fixed && va < q.End() ==> !InsideZero(g, mem, place, q.root, va))
  }

  /** How a run begins. */
  lemma RunStarts(g: Geometry, mem: Memory, place: map<nat, Place>, q: Request)
    requires WellFormed(g, mem, place) && q.root in place
    ensures OthersKept(g, mem, place, mem, place, q.root) && Spared(g, mem, place, mem, place, q.op)
    ensures GrantedUpTo(g, mem, place, mem, place, q, q.start)
    ensures Even(g, mem, place, q) ==> Onward(g, mem, place, mem, place, q, q.start)
    ensures q.op == Unmap && Even(g, mem, place, q) ==> Clean(g, mem, place, q)
    ensures Clean(g, mem, place, q) ==> Even(g, mem, place, q)
  {
    if Clean(g, mem, place, q) {
      CleanEven(g, mem, place, q);
    }
  }

  lemma OnwardViews(g: Geometry, mem0: Memory, place0: map<nat, Place>, mem: Memory, place: map<nat, Place>,
      mem': Memory, place': map<nat, Place>, q: Request, va: nat)
    requires WellFormed(g, mem0, place0) && WellFormed(g, mem, place) && WellFormed(g, mem', place')
    requires q.root in place0 && q.root in place && q.root in place' && SameViews(g, mem, place, mem', place')
    requires Onward(g, mem0, place0, mem, place, q, va)
    ensures Onward(g, mem0, place0, mem', place', q, va)
  {
  }

  lemma OnwardStore(g: Geometry, mem0: Memory, place0: map<nat, Place>, mem: Memory, place: map<nat, Place>, q: Request,
      va: nat, seen: nat, t: nat, i: nat)
    requires WellFormed(g, mem0, place0) && WellFormed(g, mem, place) && q.root in place0 && IsRoot(g, place, q.root)
    requires GrantedUpTo(g, mem0, place0, mem, place, q, va) && Onward(g, mem0, place0, mem, place, q, va)
    requires SlotFor(g, mem, place, q.root, seen, t, i, va) && va < g.Reach() && q.End() <= g.Reach()
    requires q.op == Map ==> mem[t][i].address == 0
    ensures WellFormed(g, Store(mem, t, i, q.Entry(va)), place)
    ensures Onward(g, mem0, place0, Store(mem, t, i, q.Entry(va)), place, q, va + g.Chunk(place[t].level))
  {
    var mem', next := Store(mem, t, i, q.Entry(va)), va + g.Chunk(place[t].level);
    StoreSlot(g, mem, place, q.root, seen, t, i, va, q.Entry(va));
    if q.op == Map {
      UnbackedOn(g, mem0, place0, mem, place, q, va, seen, t, i);
      if next < q.End() {
        EvenOn(g, mem, mem', place, q.root, va, place[t].level, q.Entry(va));
      }
    }
  }

  // ----- a map that begins inside the page at 0 -----

  /** A root with the largest page there is at physical address 0, and another one behind it. */
  ghost function ZeroPage(g: Geometry, base: nat): Memory
    requires g.Valid()
  {
    map[1 := EmptyTable(g.tableSize)[0 := Descriptor(Page, 0, false, false)][1 := Descriptor(Page, base, false, false)]]
  }

  ghost function ZeroPlace(g: Geometry): map<nat, Place>
    requires g.Valid()
  {
    map[1 := Place(1, g.levels - 1, 0)]
  }

  /** A fixed map of one such page's size, from the second small page on, takes in an address that is backed. */
  lemma InsideZeroBacked(g: Geometry, base: nat, q: Request)
    requires g.Valid() && g.levels > 1 && base != 0
    requires q == Request(1, g.pageSize, g.Chunk(g.levels - 1), Map, Fixed, q.write, q.nocache)
    ensures var mem, place, c := ZeroPage(g, base), ZeroPlace(g), g.Chunk(g.levels - 1);
            && WellFormed(g, mem, place) && IsRoot(g, place, 1)
            && q.size % g.pageSize == 0 && q.End() <= g.Reach()
            && Translate(g, mem, place, 1, q.start) == Some(Mapping(0, q.size, false, false))
            && !Even(g, mem, place, q)
            && q.start <= c < q.End() && Backed(Translate(g, mem, place, 1, c))
  {
    var mem, place, l := ZeroPage(g, base), ZeroPlace(g), g.levels - 1;
    var c := g.Chunk(l);
    assert WellPlaced(g, mem, place, 1) by {
      assert forall i :: 0 <= i < g.tableSize ==> SlotOk(g, mem, place, 1, i);
    }
    g.ChunkGrows(l);
    g.ChunkMultiple(0, l);
    MulMonotone(2, g.tableSize, c);
    g.FrameIsQuotient(g.pageSize, l);
    DivModUnique(g.pageSize, c, 0, g.pageSize);
    g.FrameIsQuotient(c, l);
    DivModUnique(c, c, 1, 0);
    DivModUnique(0, g.tableSize, 0, 0);
    DivModUnique(1, g.tableSize, 0, 1);
  }
}
