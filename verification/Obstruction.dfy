/**
 When mmu_table_map refuses a fixed mapping of addresses that are not mapped.
 A table that is looked up is descended into, but one that the loop steps
 onto is taken for a mapping. Which of the two happens can be told from the
 tree before the call.
 */
module Obstruction {
  import opened Common
  import opened PageTable

  /** The first address that slot `j` of a table at place `p` serves. */
  ghost function Start(g: Geometry, p: Place, j: nat): nat
    requires g.Valid()
  {
    (p.number * g.tableSize + j) * g.Chunk(p.level)
  }

  lemma StartBelow(g: Geometry, p: Place, j: nat, va: nat)
    requires g.Valid() && g.Frame(va, p.level) == p.number * g.tableSize + j
    ensures Start(g, p, j) <= va && (va % g.Chunk(p.level) == 0 ==> Start(g, p, j) == va)
  {
    g.FrameIsQuotient(va, p.level);
  }

  /** From `va` on, an empty slot of a table is followed by one that holds a table, both of them in the range. */
  ghost predicate Obstructs(g: Geometry, mem: Memory, place: map<nat, Place>, q: Request, t: nat, i: nat, va: nat)
    requires WellFormed(g, mem, place) && q.root in place
  {
    && SlotFor(g, mem, place, q.root, va, t, i, va)
    && place[t].level > 0 && i + 2 < g.tableSize
    && mem[t][i].kind == Invalid && mem[t][i + 1].kind == Table
    && q.start <= va && va + 2 * g.Chunk(place[t].level) <= q.End()
  }

  ghost predicate Obstructed(g: Geometry, mem: Memory, place: map<nat, Place>, q: Request)
    requires WellFormed(g, mem, place) && q.root in place
  {
    exists t: nat, i: nat, va: nat :: Obstructs(g, mem, place, q, t, i, va)
  }

  /** No obstruction is met before this one. */
  ghost predicate FirstObstruction(g: Geometry, mem: Memory, place: map<nat, Place>, q: Request, t: nat, i: nat,
      va: nat)
    requires WellFormed(g, mem, place) && q.root in place
  {
    && Obstructs(g, mem, place, q, t, i, va)
    && forall s: nat, j: nat, a: nat :: Obstructs(g, mem, place, q, s, j, a) ==>
         va + g.Chunk(place[t].level) <= a + g.Chunk(place[s].level)
  }

  /** The request was granted up to the second slot of the first obstruction, and nothing else has moved. */
  ghost predicate StoppedShort(g: Geometry, mem0: Memory, place0: map<nat, Place>, mem: Memory,
      place: map<nat, Place>, q: Request)
    requires WellFormed(g, mem0, place0) && WellFormed(g, mem, place) && q.root in place0 && q.root in place
  {
    exists t: nat, i: nat, va: nat :: FirstObstruction(g, mem0, place0, q, t, i, va)
      && GrantedUpTo(g, mem0, place0, mem, place, q, va + g.Chunk(place0[t].level))
  }

  // ----- what a run has changed so far -----

  /** Only slots that were empty, and begin before `va`, have changed; a table hung there is a new one. */
  ghost predicate SlotKept(g: Geometry, mem0: Memory, place0: map<nat, Place>, mem: Memory, place: map<nat, Place>,
      t: nat, j: nat, va: nat)
    requires WellFormed(g, mem0, place0) && WellFormed(g, mem, place) && t in place && j < g.tableSize
  {
    assert WellPlaced(g, mem, place, t);
    if t in place0 then
      assert WellPlaced(g, mem0, place0, t);
      || mem[t][j] == mem0[t][j]
      || (&& mem0[t][j].kind == Invalid && Start(g, place[t], j) < va
          && (mem[t][j].kind == Table ==> mem[t][j].address !in place0))
    else mem[t][j].kind == Table ==> Start(g, place[t], j) < va && mem[t][j].address !in place0
  }

  ghost predicate Kept(g: Geometry, mem0: Memory, place0: map<nat, Place>, mem: Memory, place: map<nat, Place>,
      root: nat, va: nat)
    requires WellFormed(g, mem0, place0) && WellFormed(g, mem, place)
  {
    && (forall t :: t in place0 ==> t in place && place[t] == place0[t])
    && (forall t, j :: t in place && place[t].root == root && 0 <= j < g.tableSize ==>
          SlotKept(g, mem0, place0, mem, place, t, j, va))
  }

  /** A lookup of `va` hangs new tables only on its way, and where `length` bytes do not cover the chunk. */
  ghost predicate SlotLooked(g: Geometry, mem: Memory, place: map<nat, Place>, mem': Memory, place': map<nat, Place>,
      t: nat, j: nat, va: nat, length: nat)
    requires WellFormed(g, mem, place) && WellFormed(g, mem', place') && t in place' && j < g.tableSize
  {
    assert WellPlaced(g, mem', place', t);
    var hung := mem'[t][j].kind == Table && mem'[t][j].address !in place
      && g.Frame(va, place'[t].level) == place'[t].number * g.tableSize + j;
    if t in place then
      assert WellPlaced(g, mem, place, t);
      mem'[t][j] == mem[t][j] || (mem[t][j].kind == Invalid && hung && !g.Covers(va, length, place'[t].level))
    else mem'[t][j].kind == Table ==> hung
  }

  ghost predicate Looked(g: Geometry, mem: Memory, place: map<nat, Place>, mem': Memory, place': map<nat, Place>,
      root: nat, va: nat, length: nat)
    requires WellFormed(g, mem, place) && WellFormed(g, mem', place')
  {
    && (forall t :: t in place ==> t in place' && place'[t] == place[t])
    && (forall t, j :: t in place' && place'[t].root == root && 0 <= j < g.tableSize ==>
          SlotLooked(g, mem, place, mem', place', t, j, va, length))
  }

  lemma GraftLooked(g: Geometry, mem0: Memory, place0: map<nat, Place>, mem: Memory, place: map<nat, Place>, root: nat,
      va: nat, length: nat, t: nat, i: nat, child: nat)
    requires WellFormed(g, mem0, place0) && Graftable(g, mem, place, t, i, child)
    requires Looked(g, mem0, place0, mem, place, root, va, length)
    requires g.Frame(va, place[t].level) == place[t].number * g.tableSize + i
    requires !g.Covers(va, length, place[t].level)
    ensures WellFormed(g, Graft(g, mem, t, i, child), GraftPlace(g, place, t, i, child))
    ensures Looked(g, mem0, place0, Graft(g, mem, t, i, child), GraftPlace(g, place, t, i, child), root, va, length)
  {
    GraftWellFormed(g, mem, place, t, i, child);
    var mem', place' := Graft(g, mem, t, i, child), GraftPlace(g, place, t, i, child);
    forall s, j | s in place' && place'[s].root == root && 0 <= j < g.tableSize
      ensures SlotLooked(g, mem0, place0, mem', place', s, j, va, length)
    {
      if s != child {
        assert WellPlaced(g, mem, place, s);
        assert SlotLooked(g, mem0, place0, mem, place, s, j, va, length);
      }
    }
  }

  lemma LookedKept(g: Geometry, mem0: Memory, place0: map<nat, Place>, mem: Memory, place: map<nat, Place>,
      mem': Memory, place': map<nat, Place>, root: nat, va: nat, length: nat)
    requires WellFormed(g, mem0, place0) && WellFormed(g, mem, place) && WellFormed(g, mem', place')
    requires Kept(g, mem0, place0, mem, place, root, va) && Looked(g, mem, place, mem', place', root, va, length)
    ensures Kept(g, mem0, place0, mem', place', root, va + 1)
  {
    var end := va + 1;
    forall t, j | t in place' && place'[t].root == root && 0 <= j < g.tableSize
      ensures SlotKept(g, mem0, place0, mem', place', t, j, end)
    {
      assert SlotLooked(g, mem, place, mem', place', t, j, va, length);
      if g.Frame(va, place'[t].level) == place'[t].number * g.tableSize + j {
        StartBelow(g, place'[t], j, va);
      }
      if t in place {
        assert SlotKept(g, mem0, place0, mem, place, t, j, va);
      }
    }
  }

  lemma StoreKept(g: Geometry, mem0: Memory, place0: map<nat, Place>, mem: Memory, place: map<nat, Place>,
      root: nat, va: nat, va': nat, t: nat, i: nat, d: Descriptor)
    requires WellFormed(g, mem0, place0) && WellFormed(g, mem, place) && Kept(g, mem0, place0, mem, place, root, va)
    requires t in place && place[t].root == root && i < g.tableSize && WellPlaced(g, mem, place, t)
    requires mem[t][i].kind == Invalid && Start(g, place[t], i) < va <= va' && d.kind == Page
    requires WellFormed(g, Store(mem, t, i, d), place)
    ensures Kept(g, mem0, place0, Store(mem, t, i, d), place, root, va')
  {
    var mem' := Store(mem, t, i, d);
    forall s, j | s in place && place[s].root == root && 0 <= j < g.tableSize
      ensures SlotKept(g, mem0, place0, mem', place, s, j, va')
    {
      assert SlotKept(g, mem0, place0, mem, place, s, j, va);
    }
  }

  // ----- walks before and after -----

  lemma {:induction false} ThroughKept(g: Geometry, mem0: Memory, place0: map<nat, Place>, mem: Memory,
      place: map<nat, Place>, root: nat, va: nat, s: nat, x: nat, t: nat)
    requires WellFormed(g, mem0, place0) && WellFormed(g, mem, place) && Kept(g, mem0, place0, mem, place, root, va)
    requires s in place0 && place0[s].root == root && Through(g, mem0, place0, s, x, t)
    ensures s in place && Through(g, mem, place, s, x, t)
    decreases place0[s].level
  {
    if s != t {
      var i := g.Index(x, place0[s].level);
      assert WellPlaced(g, mem0, place0, s) && SlotOk(g, mem0, place0, s, i);
      assert SlotKept(g, mem0, place0, mem, place, s, i, va);
      ThroughKept(g, mem0, place0, mem, place, root, va, mem0[s][i].address, x, t);
    }
  }

  /** New tables lead to none but new ones. */
  lemma {:induction false} NewBelow(g: Geometry, mem0: Memory, place0: map<nat, Place>, mem: Memory,
      place: map<nat, Place>, root: nat, va: nat, s: nat, x: nat, t: nat)
    requires WellFormed(g, mem0, place0) && WellFormed(g, mem, place) && Kept(g, mem0, place0, mem, place, root, va)
    requires s in place && s !in place0 && place[s].root == root && Through(g, mem, place, s, x, t)
    ensures t !in place0
    decreases place[s].level
  {
    if s != t {
      var i := g.Index(x, place[s].level);
      assert WellPlaced(g, mem, place, s) && SlotOk(g, mem, place, s, i);
      assert SlotKept(g, mem0, place0, mem, place, s, i, va);
      NewBelow(g, mem0, place0, mem, place, root, va, mem[s][i].address, x, t);
    }
  }

  lemma {:induction false} ThroughBefore(g: Geometry, mem0: Memory, place0: map<nat, Place>, mem: Memory,
      place: map<nat, Place>, root: nat, va: nat, s: nat, x: nat, t: nat)
    requires WellFormed(g, mem0, place0) && WellFormed(g, mem, place) && Kept(g, mem0, place0, mem, place, root, va)
    requires s in place0 && place0[s].root == root && t in place0 && Through(g, mem, place, s, x, t)
    ensures Through(g, mem0, place0, s, x, t)
    decreases place0[s].level
  {
    if s != t {
      var i := g.Index(x, place[s].level);
      assert WellPlaced(g, mem, place, s) && SlotOk(g, mem, place, s, i);
      assert WellPlaced(g, mem0, place0, s);
      assert SlotKept(g, mem0, place0, mem, place, s, i, va);
      var child := mem[s][i].address;
      if child in place0 {
        assert SlotOk(g, mem0, place0, s, i);
        ThroughBefore(g, mem0, place0, mem, place, root, va, child, x, t);
      } else {
        NewBelow(g, mem0, place0, mem, place, root, va, child, x, t);
      }
    }
  }

  /** Of two tables on one walk, the higher one leads to the lower. */
  lemma {:induction false} SamePath(g: Geometry, mem: Memory, place: map<nat, Place>, s: nat, x: nat, t: nat, u: nat)
    requires WellFormed(g, mem, place) && s in place && t in place && u in place
    requires Through(g, mem, place, s, x, t) && Through(g, mem, place, s, x, u)
    ensures WellPlaced(g, mem, place, t)
    ensures place[t].level == place[u].level ==> t == u
    ensures place[t].level > place[u].level ==> mem[t][g.Index(x, place[t].level)].kind == Table
    decreases place[s].level
  {
    assert WellPlaced(g, mem, place, t);
    ThroughShared(g, mem, place, s, x, t, x);
    ThroughShared(g, mem, place, s, x, u, x);
    if s != t && s != u {
      var i := g.Index(x, place[s].level);
      assert WellPlaced(g, mem, place, s) && SlotOk(g, mem, place, s, i);
      SamePath(g, mem, place, mem[s][i].address, x, t, u);
    }
  }

  lemma AlignedBelow(g: Geometry, a: nat, l: nat, m: nat)
    requires g.Valid() && l <= m && a % g.Chunk(m) == 0
    ensures a % g.Chunk(l) == 0
  {
    g.ChunkMultiple(l, m);
    MultipleOfMultiple(a, g.Chunk(m), g.Chunk(l));
  }

  // ----- one turn of the loop -----

  /** No obstruction has been passed, and one whose first slot has been mapped is stepped onto next. */
  ghost predicate Ahead(g: Geometry, mem: Memory, place: map<nat, Place>, q: Request, va: nat, t: nat, i: nat)
    requires WellFormed(g, mem, place) && q.root in place
  {
    forall s: nat, j: nat, a: nat :: Obstructs(g, mem, place, q, s, j, a) ==>
      va <= a || (va == a + g.Chunk(place[s].level) && s == t && j + 1 == i)
  }

  /** The slot before the one stepped onto was empty when the run began. */
  ghost predicate Behind(g: Geometry, mem: Memory, place: map<nat, Place>, q: Request, va: nat, t: nat, i: nat)
    requires WellFormed(g, mem, place)
  {
    i + 1 < g.tableSize && t in place ==>
      assert WellPlaced(g, mem, place, t);
      i > 0 && mem[t][i - 1].kind == Invalid && q.start + g.Chunk(place[t].level) <= va
  }

  /** Where the loop of mmu_table_map stands, at `va`, with slot `i` of table `t` to step onto. */
  ghost predicate Tracks(g: Geometry, mem0: Memory, place0: map<nat, Place>, mem: Memory, place: map<nat, Place>,
      q: Request, va: nat, t: nat, i: nat)
    requires WellFormed(g, mem0, place0) && WellFormed(g, mem, place) && q.root in place0
  {
    && Kept(g, mem0, place0, mem, place, q.root, va)
    && Ahead(g, mem0, place0, q, va, t, i)
    && Behind(g, mem0, place0, q, va, t, i)
  }

  /** A slot that is mapped does not reach past an obstruction, and is its first slot if it begins there. */
  lemma TurnMeets(g: Geometry, mem0: Memory, place0: map<nat, Place>, mem: Memory, place: map<nat, Place>, q: Request,
      va: nat, seen: nat, t: nat, i: nat, s: nat, j: nat, a: nat)
    requires WellFormed(g, mem0, place0) && WellFormed(g, mem, place)
    requires IsRoot(g, place0, q.root) && IsRoot(g, place, q.root)
    requires Kept(g, mem0, place0, mem, place, q.root, va + 1)
    requires SlotFor(g, mem, place, q.root, seen, t, i, va) && mem[t][i].kind == Invalid
    requires Obstructs(g, mem0, place0, q, s, j, a) && va <= a
    requires va == a ==> WellPlaced(g, mem, place, s) && mem[s][j].kind != Table
    ensures va + g.Chunk(place[t].level) <= a || (va == a && s == t && j == i)
  {
    var l, m := place[t].level, place[s].level;
    if a < va + g.Chunk(l) {
      g.AlignedChunk(va, a, l);
      g.SlotOf(a, l, place[t].number, i);
      g.SlotOf(a, m, place[s].number, j);
      ThroughShared(g, mem, place, q.root, seen, t, a);
      ThroughKept(g, mem0, place0, mem, place, q.root, va + 1, q.root, a, s);
      SamePath(g, mem, place, q.root, a, t, s);
      SamePath(g, mem, place, q.root, a, s, t);
      AlignedBelow(g, a, l, m);
    }
  }

  /** An obstruction's first slot is still empty after a lookup, which is not kept from mapping it. */
  lemma StillEmpty(g: Geometry, mem0: Memory, place0: map<nat, Place>, mem: Memory, place: map<nat, Place>,
      mem': Memory, place': map<nat, Place>, q: Request, va: nat, t: nat, i: nat)
    requires WellFormed(g, mem0, place0) && WellFormed(g, mem, place) && WellFormed(g, mem', place')
    requires q.root in place0 && Obstructs(g, mem0, place0, q, t, i, va)
    requires Kept(g, mem0, place0, mem, place, q.root, va)
    requires Looked(g, mem, place, mem', place', q.root, va, q.End() - va)
    ensures t in place' && WellPlaced(g, mem', place', t) && mem'[t][i].kind != Table
  {
    assert SlotKept(g, mem0, place0, mem, place, t, i, va);
    StartBelow(g, place[t], i, va);
    assert SlotLooked(g, mem, place, mem', place', t, i, va, q.End() - va);
    assert WellPlaced(g, mem', place', t);
  }

  lemma TurnAhead(g: Geometry, mem0: Memory, place0: map<nat, Place>, mem: Memory, place: map<nat, Place>,
      mem': Memory, place': map<nat, Place>, q: Request, va: nat, t: nat, i: nat, seen: nat, t': nat, i': nat)
    requires WellFormed(g, mem0, place0) && WellFormed(g, mem, place) && WellFormed(g, mem', place')
    requires IsRoot(g, place0, q.root) && IsRoot(g, place', q.root) && va <= q.End()
    requires Tracks(g, mem0, place0, mem, place, q, va, t, i)
    requires Looked(g, mem, place, mem', place', q.root, va, q.End() - va)
    requires Turns(g, mem, place, mem', place', q, va, t, i, t', i')
    requires SlotFor(g, mem', place', q.root, seen, t', i', va) && mem'[t'][i'].kind == Invalid
    ensures Ahead(g, mem0, place0, q, va + g.Chunk(place'[t'].level), t', i' + 1)
  {
    LookedKept(g, mem0, place0, mem, place, mem', place', q.root, va, q.End() - va);
    forall s: nat, j: nat, a: nat | Obstructs(g, mem0, place0, q, s, j, a)
      ensures va <= a
      ensures va == a ==> s in place' && WellPlaced(g, mem', place', s) && mem'[s][j].kind != Table
    {
      if va <= a {
        if va == a {
          StillEmpty(g, mem0, place0, mem, place, mem', place', q, va, s, j);
        }
      } else {
        SecondSlot(g, mem0, place0, mem, place, q, s, j, a);
      }
    }
    forall s: nat, j: nat, a: nat | Obstructs(g, mem0, place0, q, s, j, a)
      ensures va + g.Chunk(place'[t'].level) <= a || (va == a && s == t' && j == i')
    {
      TurnMeets(g, mem0, place0, mem', place', q, va, seen, t', i', s, j, a);
    }
  }

  /** The second slot of an obstruction still holds its table. */
  lemma SecondSlot(g: Geometry, mem0: Memory, place0: map<nat, Place>, mem: Memory, place: map<nat, Place>, q: Request,
      t: nat, i: nat, a: nat)
    requires WellFormed(g, mem0, place0) && WellFormed(g, mem, place) && q.root in place0
    requires Obstructs(g, mem0, place0, q, t, i, a)
    requires Kept(g, mem0, place0, mem, place, q.root, a + g.Chunk(place0[t].level))
    ensures t in place && WellPlaced(g, mem, place, t) && mem[t][i + 1].kind == Table
  {
    var b := a + g.Chunk(place0[t].level);
    assert SlotKept(g, mem0, place0, mem, place, t, i + 1, b);
    g.NextChunk(a, place0[t].level);
    StartBelow(g, place0[t], i + 1, b);
    assert WellPlaced(g, mem, place, t);
  }

  /** The slot that a turn comes to: looked up afresh, or the next one of the same table. */
  ghost predicate Turns(g: Geometry, mem: Memory, place: map<nat, Place>, mem': Memory, place': map<nat, Place>,
      q: Request, va: nat, t: nat, i: nat, t': nat, i': nat)
    requires g.Valid()
  {
    i + 1 < g.tableSize && t in place && va + g.Chunk(place[t].level) <= q.End() ==>
      mem' == mem && place' == place && t' == t && i' == i
  }

  /** A slot that is mapped leaves the loop where it should be. */
  lemma TurnTracks(g: Geometry, mem0: Memory, place0: map<nat, Place>, mem: Memory, place: map<nat, Place>,
      mem': Memory, place': map<nat, Place>, q: Request, va: nat, t: nat, i: nat, seen: nat, t': nat, i': nat)
    requires WellFormed(g, mem0, place0) && WellFormed(g, mem, place) && WellFormed(g, mem', place')
    requires IsRoot(g, place0, q.root) && IsRoot(g, place', q.root) && q.start <= va <= q.End()
    requires q.op == Map && q.ty == Fixed
    requires Tracks(g, mem0, place0, mem, place, q, va, t, i)
    requires Looked(g, mem, place, mem', place', q.root, va, q.End() - va)
    requires Turns(g, mem, place, mem', place', q, va, t, i, t', i')
    requires SlotFor(g, mem', place', q.root, seen, t', i', va) && mem'[t'][i'].kind == Invalid
    requires WellFormed(g, Store(mem', t', i', q.Entry(va)), place')
    ensures Tracks(g, mem0, place0, Store(mem', t', i', q.Entry(va)), place', q, va + g.Chunk(place'[t'].level), t',
              i' + 1)
  {
    TurnAhead(g, mem0, place0, mem, place, mem', place', q, va, t, i, seen, t', i');
    LookedKept(g, mem0, place0, mem, place, mem', place', q.root, va, q.End() - va);
    StartBelow(g, place'[t'], i', va);
    assert SlotKept(g, mem0, place0, mem', place', t', i', va + 1);
    StoreKept(g, mem0, place0, mem', place', q.root, va + 1, va + g.Chunk(place'[t'].level), t', i', q.Entry(va));
  }

  /** A slot that is stepped onto and holds a table is the second one of the first obstruction. */
  lemma TurnStops(g: Geometry, mem0: Memory, place0: map<nat, Place>, mem: Memory, place: map<nat, Place>, q: Request,
      va: nat, t: nat, i: nat, seen: nat)
    requires WellFormed(g, mem0, place0) && WellFormed(g, mem, place)
    requires IsRoot(g, place0, q.root) && Tracks(g, mem0, place0, mem, place, q, va, t, i)
    requires i + 1 < g.tableSize && SlotFor(g, mem, place, q.root, seen, t, i, va) && mem[t][i].kind == Table
    requires va + g.Chunk(place[t].level) <= q.End()
    ensures t in place0 && i > 0 && g.Chunk(place0[t].level) <= va
    ensures FirstObstruction(g, mem0, place0, q, t, i - 1, va - g.Chunk(place0[t].level))
  {
    StartBelow(g, place[t], i, va);
    assert SlotKept(g, mem0, place0, mem, place, t, i, va);
    assert SlotOk(g, mem, place, t, i);
    var l := place0[t].level;
    var a := va - g.Chunk(l);
    SumMultiple(va, g.Chunk(l), g.Chunk(l));
    g.NextChunk(a, l);
    g.SlotOf(a, l, place0[t].number, i - 1);
    ThroughBefore(g, mem0, place0, mem, place, q.root, va, q.root, seen, t);
    ThroughShared(g, mem0, place0, q.root, seen, t, a);
    assert WellPlaced(g, mem0, place0, t);
    assert Obstructs(g, mem0, place0, q, t, i - 1, a);
  }

  lemma TurnStopsShort(g: Geometry, mem0: Memory, place0: map<nat, Place>, mem: Memory, place: map<nat, Place>,
      q: Request, va: nat, t: nat, i: nat, seen: nat)
    requires WellFormed(g, mem0, place0) && WellFormed(g, mem, place) && IsRoot(g, place, q.root)
    requires IsRoot(g, place0, q.root) && Tracks(g, mem0, place0, mem, place, q, va, t, i)
    requires i + 1 < g.tableSize && SlotFor(g, mem, place, q.root, seen, t, i, va) && mem[t][i].kind == Table
    requires va + g.Chunk(place[t].level) <= q.End() && GrantedUpTo(g, mem0, place0, mem, place, q, va)
    ensures StoppedShort(g, mem0, place0, mem, place, q)
  {
    TurnStops(g, mem0, place0, mem, place, q, va, t, i, seen);
    var a := va - g.Chunk(place0[t].level);
    assert FirstObstruction(g, mem0, place0, q, t, i - 1, a);
  }

  /** The loop starts where it should be. */
  lemma TracksStart(g: Geometry, mem: Memory, place: map<nat, Place>, q: Request, t: nat)
    requires WellFormed(g, mem, place) && q.root in place
    ensures Tracks(g, mem, place, mem, place, q, q.start, t, g.tableSize)
  {
  }

  /** At the end of the range there was no obstruction, ... */
  lemma TracksDone(g: Geometry, mem0: Memory, place0: map<nat, Place>, mem: Memory, place: map<nat, Place>, q: Request,
      t: nat, i: nat)
    requires WellFormed(g, mem0, place0) && WellFormed(g, mem, place) && q.root in place0
    requires Tracks(g, mem0, place0, mem, place, q, q.End(), t, i)
    ensures !Obstructed(g, mem0, place0, q)
  {
  }

  /** ... and where the loop stops short there was one. */
  lemma StoppedObstructed(g: Geometry, mem0: Memory, place0: map<nat, Place>, mem: Memory, place: map<nat, Place>,
      q: Request)
    requires WellFormed(g, mem0, place0) && WellFormed(g, mem, place) && q.root in place0 && q.root in place
    requires StoppedShort(g, mem0, place0, mem, place, q)
    ensures Obstructed(g, mem0, place0, q)
  {
  }

  // ----- an input -----

  /** A root with an empty table, number 2, left in its second slot. */
  ghost function Leftover(g: Geometry): Memory
    requires g.tableSize > 2
  {
    map[1 := EmptyTable(g.tableSize)[1 := Descriptor(Table, 2, false, false)], 2 := EmptyTable(g.tableSize)]
  }

  ghost function LeftoverPlace(g: Geometry): map<nat, Place>
    requires g.levels > 1
  {
    map[1 := Place(1, g.levels - 1, 0), 2 := Place(1, g.levels - 2, 1)]
  }

  lemma LeftoverUnmapped(g: Geometry)
    requires g.Valid() && g.levels > 1 && g.tableSize > 2
    ensures WellFormed(g, Leftover(g), LeftoverPlace(g)) && IsRoot(g, LeftoverPlace(g), 1)
    ensures forall x :: 0 <= x ==> Translate(g, Leftover(g), LeftoverPlace(g), 1, x) == None
  {
    var mem, place := Leftover(g), LeftoverPlace(g);
    assert WellPlaced(g, mem, place, 1) by {
      assert SlotOk(g, mem, place, 1, 1);
    }
    assert WellPlaced(g, mem, place, 2);
  }

  /** Nothing at all is mapped there, and yet a fixed mapping of the first two chunks is obstructed. */
  lemma LeftoverObstructs(g: Geometry, q: Request)
    requires g.Valid() && g.levels > 1 && g.tableSize > 2
    requires q.root == 1 && q.start == 0 && q.size == 2 * g.Chunk(g.levels - 1) && q.op == Map
    ensures WellFormed(g, Leftover(g), LeftoverPlace(g)) && IsRoot(g, LeftoverPlace(g), 1) && q.End() <= g.Reach()
    ensures Clean(g, Leftover(g), LeftoverPlace(g), q) && Obstructed(g, Leftover(g), LeftoverPlace(g), q)
  {
    LeftoverUnmapped(g);
    MulMonotone(2, g.tableSize, g.Chunk(g.levels - 1));
    g.WithinReach(0);
    g.FrameIsQuotient(0, g.levels - 1);
    assert WellPlaced(g, Leftover(g), LeftoverPlace(g), 1);
    assert Obstructs(g, Leftover(g), LeftoverPlace(g), q, 1, 0, 0);
  }
}
