/**
 The m68k page tables: a radix tree of descriptor tables held in physical
 memory, in which a page descriptor may end the walk early at any level.
 The tree is shown to behave as a flat map from virtual addresses to
 physical ones, whatever mix of large and leaf descriptors is in use.
 */
module PageTable {
  import opened Common

  datatype Kind = Invalid | Page | Table

  datatype Descriptor = Descriptor(kind: Kind, address: nat, writeProtect: bool, cacheInhibit: bool)

  const EMPTY := Descriptor(Invalid, 0, false, false)

  /** A descriptor that ends the walk; an invalid one holds no address. */
  predicate Leaf(d: Descriptor) {
    d.kind == Page || (d.kind == Invalid && d.address == 0)
  }

  /** PAGE_SIZE, MMU_TABLE_SIZE and MMU_TABLE_LEVELS of a configuration. */
  datatype Geometry = Geometry(pageSize: nat, tableSize: nat, levels: nat) {
    ghost predicate Valid() {
      pageSize > 0 && tableSize > 1 && levels > 0
    }

    /** The bytes covered by one descriptor of a table at level `l`: `1 << bits`. */
    function Chunk(l: nat): (c: nat)
      requires Valid()
      ensures c > 0
    {
      if l == 0 then pageSize else tableSize * Chunk(l - 1)
    }

    /** The number of the level-`l` chunk that holds `va`. */
    function Frame(va: nat, l: nat): nat
      requires Valid()
    {
      if l == 0 then va / pageSize else Frame(va, l - 1) / tableSize
    }

    /** TABLE_INDEX: the slot of a level-`l` table that serves `va`. */
    function Index(va: nat, l: nat): (i: nat)
      requires Valid()
      ensures i < tableSize
    {
      Frame(va, l) % tableSize
    }

    /** Whether a level-`l` chunk starts at `va` and lies in the `length` bytes from there. */
    predicate Covers(va: nat, length: nat, l: nat)
      requires Valid()
    {
      va % Chunk(l) == 0 && length >= Chunk(l)
    }

    /** The addresses the root table can tell apart. */
    function Reach(): nat
      requires Valid()
    {
      Chunk(levels)
    }

    lemma {:induction false} FrameIsQuotient(va: nat, l: nat)
      requires Valid()
      ensures Frame(va, l) == va / Chunk(l)
    {
      if l > 0 {
        FrameIsQuotient(va, l - 1);
        DivDiv(va, Chunk(l - 1), tableSize);
      }
    }

    lemma FrameSplit(va: nat, l: nat)
      requires Valid()
      ensures Frame(va, l) == Frame(va, l + 1) * tableSize + Index(va, l)
    {
    }

    lemma SlotOf(va: nat, l: nat, number: nat, i: nat)
      requires Valid() && i < tableSize
      ensures Frame(va, l) == number * tableSize + i <==> Frame(va, l + 1) == number && Index(va, l) == i
    {
      FrameSplit(va, l);
      if Frame(va, l) == number * tableSize + i {
        DivModUnique(Frame(va, l), tableSize, number, i);
      }
    }

    /** Addresses that share a chunk share every larger one. */
    lemma {:induction false} SameFrameAbove(x: nat, y: nat, l: nat, m: nat)
      requires Valid() && l <= m && Frame(x, l) == Frame(y, l)
      ensures Frame(x, m) == Frame(y, m)
      decreases m
    {
      if l < m {
        SameFrameAbove(x, y, l, m - 1);
      }
    }

    /** From an aligned address, a chunk is exactly the next `Chunk(l)` bytes. */
    lemma AlignedChunk(va: nat, x: nat, l: nat)
      requires Valid() && va % Chunk(l) == 0
      ensures Frame(x, l) == Frame(va, l) <==> va <= x < va + Chunk(l)
      ensures va <= x < va + Chunk(l) ==> x % Chunk(l) == x - va
    {
      FrameIsQuotient(va, l);
      FrameIsQuotient(x, l);
      QuotientInterval(va, x, Chunk(l));
    }

    lemma NextChunk(va: nat, l: nat)
      requires Valid() && va % Chunk(l) == 0
      ensures Frame(va + Chunk(l), l) == Frame(va, l) + 1 && (va + Chunk(l)) % Chunk(l) == 0
    {
      var c := Chunk(l);
      FrameIsQuotient(va, l);
      FrameIsQuotient(va + c, l);
      DivModUnique(va + c, c, va / c + 1, 0);
    }

    lemma {:induction false} ChunkMultiple(l: nat, m: nat)
      requires Valid() && l <= m
      ensures Chunk(m) % Chunk(l) == 0 && Chunk(m) >= Chunk(l)
      decreases m
    {
      if l < m {
        ChunkMultiple(l, m - 1);
        ScaledMultiple(tableSize, Chunk(m - 1), Chunk(l));
      } else {
        DivModUnique(Chunk(m), Chunk(l), 1, 0);
      }
    }

    lemma IndexWraps(x: nat, l: nat)
      requires Valid() && l < levels
      ensures Index(x + Reach(), l) == Index(x, l)
    {
      ChunkMultiple(l, levels - 1);
      FrameIsQuotient(x, l);
      FrameIsQuotient(x + Reach(), l);
      AddedMultiples(x, Chunk(l), Chunk(levels - 1), tableSize);
    }

    lemma ChunkGrows(l: nat)
      requires Valid()
      ensures l > 0 ==> Chunk(l) > pageSize
    {
      if l > 0 {
        ChunkMultiple(0, l - 1);
        MulMonotone(2, tableSize, Chunk(l - 1));
      }
    }

    /** Moving on by a chunk keeps an address and a length page aligned, and what is left of a range at least a page. */
    lemma Advance(va: nat, length: nat, l: nat)
      requires Valid() && va % pageSize == 0 && length % pageSize == 0 && length > 0
      ensures length >= pageSize
      ensures (va + Chunk(l)) % pageSize == 0 && (length - Chunk(l)) % pageSize == 0
    {
      ChunkMultiple(0, l);
      MultipleGap(0, length, pageSize);
      SumMultiple(va, Chunk(l), pageSize);
      SumMultiple(length, Chunk(l), pageSize);
    }

    lemma WithinReach(x: nat)
      requires Valid()
      ensures Frame(x, levels) == 0 <==> x < Reach()
    {
      FrameIsQuotient(x, levels);
      if x < Reach() {
        DivModUnique(x, Reach(), 0, x);
      }
    }
  }

  type Memory = map<nat, seq<Descriptor>>

  /** Where a table sits: its root, its level, and which chunk of the level above it maps. */
  datatype Place = Place(root: nat, level: nat, number: nat)

  ghost predicate WellPlaced(g: Geometry, mem: Memory, place: map<nat, Place>, t: nat)
    requires t in place
  {
    && t != 0
    && t in mem && |mem[t]| == g.tableSize
    && place[t].level < g.levels
    && forall i :: 0 <= i < g.tableSize ==> SlotOk(g, mem, place, t, i)
  }

  ghost predicate SlotOk(g: Geometry, mem: Memory, place: map<nat, Place>, t: nat, i: nat)
    requires t in place && t in mem && i < |mem[t]|
  {
    var d := mem[t][i];
    if d.kind == Table then
      && place[t].level > 0
      && d.address in place
      && place[d.address] == Place(place[t].root, place[t].level - 1, place[t].number * g.tableSize + i)
    else Leaf(d)
  }

  /** Every table is a whole page of descriptors, and a table descriptor leads one level down, to the table of
      its own chunk. */
  ghost predicate WellFormed(g: Geometry, mem: Memory, place: map<nat, Place>) {
    && g.Valid()
    && forall t :: t in place ==> WellPlaced(g, mem, place, t)
  }

  ghost predicate IsRoot(g: Geometry, place: map<nat, Place>, r: nat) {
    r in place && g.levels > 0 && place[r] == Place(r, g.levels - 1, 0)
  }

  /** The table in which the hardware walk for `va` from table `t` ends. */
  ghost function Walk(g: Geometry, mem: Memory, place: map<nat, Place>, t: nat, va: nat): (w: nat)
    requires WellFormed(g, mem, place) && t in place
    ensures w in place && mem[w][g.Index(va, place[w].level)].kind != Table
    decreases place[t].level
  {
    assert WellPlaced(g, mem, place, t);
    var i := g.Index(va, place[t].level);
    if mem[t][i].kind == Table then
      assert SlotOk(g, mem, place, t, i);
      Walk(g, mem, place, mem[t][i].address, va)
    else t
  }

  /** A translation: the physical page, its size, and its status bits. */
  datatype Mapping = Mapping(base: nat, size: nat, writeProtect: bool, cacheInhibit: bool) {
    /** The physical address of `va`: the page's own bits replaced, the others kept. */
    function Physical(va: nat): nat
      requires size > 0
    {
      base + va % size
    }
  }

  /** What the hardware translates `va` to, or None for a fault. */
  ghost function Translate(g: Geometry, mem: Memory, place: map<nat, Place>, r: nat, va: nat): Option<Mapping>
    requires WellFormed(g, mem, place) && r in place
  {
    var w := Walk(g, mem, place, r, va);
    assert WellPlaced(g, mem, place, w);
    var l := place[w].level;
    ChunkMapping(g, mem[w][g.Index(va, l)], l)
  }

  /** The walk for `va` from table `s` passes through table `t`. */
  ghost predicate Through(g: Geometry, mem: Memory, place: map<nat, Place>, s: nat, va: nat, t: nat)
    requires WellFormed(g, mem, place) && s in place
    decreases place[s].level
  {
    assert WellPlaced(g, mem, place, s);
    var i := g.Index(va, place[s].level);
    s == t || (mem[s][i].kind == Table && assert SlotOk(g, mem, place, s, i);
      Through(g, mem, place, mem[s][i].address, va, t))
  }

  /** A table on the walk of one address is on the walk of every address of its range, and finishes it. */
  lemma {:induction false} ThroughShared(g: Geometry, mem: Memory, place: map<nat, Place>, s: nat, va: nat, t: nat,
      x: nat)
    requires WellFormed(g, mem, place) && s in place && t in place
    requires Through(g, mem, place, s, va, t)
    requires g.Frame(x, place[t].level + 1) == g.Frame(va, place[t].level + 1)
    ensures Through(g, mem, place, s, x, t)
    ensures Walk(g, mem, place, s, x) == Walk(g, mem, place, t, x)
    ensures place[t].level <= place[s].level && place[t].root == place[s].root
    ensures s != t ==> place[t].level < place[s].level
    decreases place[s].level
  {
    assert WellPlaced(g, mem, place, s);
    if s != t {
      var l := place[s].level;
      var i := g.Index(va, l);
      var child := mem[s][i].address;
      assert SlotOk(g, mem, place, s, i);
      ThroughShared(g, mem, place, child, va, t, x);
      g.SameFrameAbove(x, va, place[t].level + 1, l);
    }
  }

  /** Tables on the walk of `va` map the chunk that holds `va`. */
  lemma {:induction false} ThroughNumber(g: Geometry, mem: Memory, place: map<nat, Place>, s: nat, va: nat, t: nat)
    requires WellFormed(g, mem, place) && s in place
    requires g.Frame(va, place[s].level + 1) == place[s].number
    requires Through(g, mem, place, s, va, t)
    ensures t in place && place[t].number == g.Frame(va, place[t].level + 1)
    decreases place[s].level
  {
    assert WellPlaced(g, mem, place, s);
    if s != t {
      var l := place[s].level;
      var i := g.Index(va, l);
      assert SlotOk(g, mem, place, s, i);
      g.FrameSplit(va, l);
      ThroughNumber(g, mem, place, mem[s][i].address, va, t);
    }
  }

  function Store(mem: Memory, t: nat, i: nat, d: Descriptor): Memory
    requires t in mem && i < |mem[t]|
  {
    mem[t := mem[t][i := d]]
  }

  lemma StoreWellFormed(g: Geometry, mem: Memory, place: map<nat, Place>, t: nat, i: nat, d: Descriptor)
    requires WellFormed(g, mem, place) && t in place && i < g.tableSize && Leaf(d)
    ensures WellPlaced(g, mem, place, t) && WellFormed(g, Store(mem, t, i, d), place)
  {
    assert WellPlaced(g, mem, place, t);
    var mem' := Store(mem, t, i, d);
    forall s | s in place
      ensures WellPlaced(g, mem', place, s)
    {
      assert WellPlaced(g, mem, place, s);
      forall j | 0 <= j < g.tableSize
        ensures SlotOk(g, mem', place, s, j)
      {
        assert SlotOk(g, mem, place, s, j);
      }
    }
  }

  /** Writing one slot leaves the walk of every address outside its chunk, and of every other root, as it was. */
  lemma {:induction false} StoreElsewhere(g: Geometry, mem: Memory, place: map<nat, Place>, t: nat, i: nat,
      d: Descriptor, s: nat, x: nat)
    requires WellFormed(g, mem, place) && t in place && i < g.tableSize && Leaf(d) && s in place
    requires WellPlaced(g, mem, place, t) && WellFormed(g, Store(mem, t, i, d), place)
    requires g.Frame(x, place[s].level + 1) == place[s].number
    requires place[s].root != place[t].root || g.Frame(x, place[t].level) != place[t].number * g.tableSize + i
    ensures Translate(g, Store(mem, t, i, d), place, s, x) == Translate(g, mem, place, s, x)
    decreases place[s].level
  {
    assert WellPlaced(g, mem, place, s);
    assert WellPlaced(g, Store(mem, t, i, d), place, s);
    var l := place[s].level;
    var j := g.Index(x, l);
    g.FrameSplit(x, l);
    assert s != t || i != j;
    if mem[s][j].kind == Table {
      assert SlotOk(g, mem, place, s, j);
      StoreElsewhere(g, mem, place, t, i, d, mem[s][j].address, x);
    }
  }

  /** Writing a slot that lies on the walk decides the walk of every address of its chunk. */
  lemma {:induction false} StoreHere(g: Geometry, mem: Memory, place: map<nat, Place>, t: nat, i: nat, d: Descriptor,
      s: nat, va: nat, x: nat)
    requires WellFormed(g, mem, place) && t in place && i < g.tableSize && Leaf(d) && s in place
    requires WellPlaced(g, mem, place, t) && WellFormed(g, Store(mem, t, i, d), place)
    requires Through(g, mem, place, s, va, t)
    requires g.Frame(x, place[t].level + 1) == g.Frame(va, place[t].level + 1) && g.Index(x, place[t].level) == i
    ensures Walk(g, Store(mem, t, i, d), place, s, x) == t
    decreases place[s].level
  {
    assert WellPlaced(g, mem, place, s);
    if s != t {
      ThroughShared(g, mem, place, s, va, t, x);
      var l := place[s].level;
      g.SameFrameAbove(x, va, place[t].level + 1, l);
      var j := g.Index(va, l);
      assert SlotOk(g, mem, place, s, j);
      StoreHere(g, mem, place, t, i, d, mem[s][j].address, va, x);
    }
  }

  function EmptyTable(n: nat): (e: seq<Descriptor>)
    ensures |e| == n && forall i :: 0 <= i < n ==> e[i] == EMPTY
  {
    seq(n, i => EMPTY)
  }

  /** Hang a fresh, empty table `child` under slot `i` of table `t`. */
  ghost function Graft(g: Geometry, mem: Memory, t: nat, i: nat, child: nat): Memory
    requires t in mem && i < |mem[t]|
  {
    mem[child := EmptyTable(g.tableSize)][t := mem[t][i := Descriptor(Table, child, false, false)]]
  }

  ghost function GraftPlace(g: Geometry, place: map<nat, Place>, t: nat, i: nat, child: nat): map<nat, Place>
    requires t in place && place[t].level > 0
  {
    place[child := Place(place[t].root, place[t].level - 1, place[t].number * g.tableSize + i)]
  }

  ghost predicate Graftable(g: Geometry, mem: Memory, place: map<nat, Place>, t: nat, i: nat, child: nat) {
    && WellFormed(g, mem, place) && t in place && i < g.tableSize && WellPlaced(g, mem, place, t)
    && mem[t][i].kind == Invalid && place[t].level > 0
    && child != 0 && child !in mem && child !in place
  }

  lemma GraftWellFormed(g: Geometry, mem: Memory, place: map<nat, Place>, t: nat, i: nat, child: nat)
    requires Graftable(g, mem, place, t, i, child)
    ensures WellFormed(g, Graft(g, mem, t, i, child), GraftPlace(g, place, t, i, child))
  {
    var mem', place' := Graft(g, mem, t, i, child), GraftPlace(g, place, t, i, child);
    forall s | s in place'
      ensures WellPlaced(g, mem', place', s)
    {
      if s != child {
        assert WellPlaced(g, mem, place, s);
        forall j | 0 <= j < g.tableSize
          ensures SlotOk(g, mem', place', s, j)
        {
          if s != t || j != i {
            assert SlotOk(g, mem, place, s, j);
          }
        }
      }
    }
  }

  /** A grafted table changes no translation, and the walks of its chunk now pass through it. */
  lemma {:induction false} GraftKeeps(g: Geometry, mem: Memory, place: map<nat, Place>, t: nat, i: nat, child: nat,
      s: nat, x: nat)
    requires Graftable(g, mem, place, t, i, child) && s in place
    requires WellFormed(g, Graft(g, mem, t, i, child), GraftPlace(g, place, t, i, child))
    ensures var mem', place' := Graft(g, mem, t, i, child), GraftPlace(g, place, t, i, child);
            && Translate(g, mem', place', s, x) == Translate(g, mem, place, s, x)
            && (Through(g, mem, place, s, x, t) && g.Index(x, place[t].level) == i ==>
            Through(g, mem', place', s, x, child))
    decreases place[s].level
  {
    var mem', place' := Graft(g, mem, t, i, child), GraftPlace(g, place, t, i, child);
    assert WellPlaced(g, mem, place, s);
    assert WellPlaced(g, mem', place', s);
    assert WellPlaced(g, mem', place', child);
    var j := g.Index(x, place[s].level);
    if mem[s][j].kind == Table {
      assert SlotOk(g, mem, place, s, j);
      GraftKeeps(g, mem, place, t, i, child, mem[s][j].address, x);
    } else if s == t && j == i {
      assert Walk(g, mem', place', s, x) == Walk(g, mem', place', child, x) == child;
      assert Through(g, mem', place', child, x, child);
    }
  }

  lemma {:induction false} GraftThrough(g: Geometry, mem: Memory, place: map<nat, Place>, t: nat, i: nat, child: nat,
      s: nat, x: nat, u: nat)
    requires Graftable(g, mem, place, t, i, child) && s in place
    requires WellFormed(g, Graft(g, mem, t, i, child), GraftPlace(g, place, t, i, child))
    requires Through(g, mem, place, s, x, u)
    ensures Through(g, Graft(g, mem, t, i, child), GraftPlace(g, place, t, i, child), s, x, u)
    decreases place[s].level
  {
    assert WellPlaced(g, mem, place, s);
    if s != u {
      var j := g.Index(x, place[s].level);
      assert SlotOk(g, mem, place, s, j);
      GraftThrough(g, mem, place, t, i, child, mem[s][j].address, x, u);
    }
  }

  lemma {:induction false} ThroughStep(g: Geometry, mem: Memory, place: map<nat, Place>, s: nat, va: nat, t: nat)
    requires WellFormed(g, mem, place) && s in place && t in place && WellPlaced(g, mem, place, t)
    requires Through(g, mem, place, s, va, t)
    requires mem[t][g.Index(va, place[t].level)].kind == Table
    ensures Through(g, mem, place, s, va, mem[t][g.Index(va, place[t].level)].address)
    decreases place[s].level
  {
    assert WellPlaced(g, mem, place, s);
    var i := g.Index(va, place[s].level);
    if mem[s][i].kind == Table {
      assert SlotOk(g, mem, place, s, i);
    }
    if s != t {
      ThroughStep(g, mem, place, mem[s][i].address, va, t);
    }
  }

  lemma WalkEndsThrough(g: Geometry, mem: Memory, place: map<nat, Place>, s: nat, va: nat, t: nat)
    requires WellFormed(g, mem, place) && s in place && t in place && WellPlaced(g, mem, place, t)
    requires Through(g, mem, place, s, va, t)
    requires mem[t][g.Index(va, place[t].level)].kind != Table
    ensures Walk(g, mem, place, s, va) == t
  {
    ThroughShared(g, mem, place, s, va, t, va);
  }

  /** Tables may have been added, but every table stays in place and no translation differs. */
  ghost predicate SameViews(g: Geometry, mem: Memory, place: map<nat, Place>, mem': Memory, place': map<nat, Place>)
    requires WellFormed(g, mem, place) && WellFormed(g, mem', place')
  {
    && (forall p :: p in place ==> p in place' && place'[p] == place[p])
    && (forall r, x :: r in place ==> Translate(g, mem', place', r, x) == Translate(g, mem, place, r, x))
    && (forall r, x, t :: r in place && Through(g, mem, place, r, x, t) ==> Through(g, mem', place', r, x, t))
  }

  lemma GraftSameViews(g: Geometry, mem: Memory, place: map<nat, Place>, t: nat, i: nat, child: nat)
    requires Graftable(g, mem, place, t, i, child)
    ensures WellFormed(g, Graft(g, mem, t, i, child), GraftPlace(g, place, t, i, child))
    ensures SameViews(g, mem, place, Graft(g, mem, t, i, child), GraftPlace(g, place, t, i, child))
  {
    GraftWellFormed(g, mem, place, t, i, child);
    forall r, x | r in place
      ensures Translate(g, Graft(g, mem, t, i, child), GraftPlace(g, place, t, i, child), r, x)
              == Translate(g, mem, place, r, x)
    {
      GraftKeeps(g, mem, place, t, i, child, r, x);
    }
    forall r, x, u | r in place && Through(g, mem, place, r, x, u)
      ensures Through(g, Graft(g, mem, t, i, child), GraftPlace(g, place, t, i, child), r, x, u)
    {
      GraftThrough(g, mem, place, t, i, child, r, x, u);
    }
  }

  /** A store in a table spares the walks that lead to it, and every walk of another root. */
  lemma {:induction false} ThroughStore(g: Geometry, mem: Memory, place: map<nat, Place>, t: nat, i: nat,
      d: Descriptor, s: nat, va: nat, u: nat)
    requires WellFormed(g, mem, place) && t in place && i < g.tableSize && Leaf(d) && s in place
    requires WellPlaced(g, mem, place, t) && WellFormed(g, Store(mem, t, i, d), place)
    requires Through(g, mem, place, s, va, u) && (u == t || place[s].root != place[t].root)
    ensures Through(g, Store(mem, t, i, d), place, s, va, u)
    decreases place[s].level
  {
    assert WellPlaced(g, mem, place, s);
    if s != u {
      var j := g.Index(va, place[s].level);
      assert SlotOk(g, mem, place, s, j);
      ThroughStore(g, mem, place, t, i, d, mem[s][j].address, va, u);
    }
  }

  /** Every address of a mapped page is mapped, by the same page. */
  lemma SamePage(g: Geometry, mem: Memory, place: map<nat, Place>, r: nat, x: nat, y: nat)
    requires WellFormed(g, mem, place) && r in place
    requires var w := Walk(g, mem, place, r, x); g.Frame(x, place[w].level) == g.Frame(y, place[w].level)
    requires Translate(g, mem, place, r, x).Some?
    ensures Translate(g, mem, place, r, y).Some?
    ensures Translate(g, mem, place, r, y).value.size == Translate(g, mem, place, r, x).value.size
  {
    var w := Walk(g, mem, place, r, x);
    WalkThrough(g, mem, place, r, x);
    ThroughShared(g, mem, place, r, x, w, y);
  }

  lemma {:induction false} WalkThrough(g: Geometry, mem: Memory, place: map<nat, Place>, s: nat, x: nat)
    requires WellFormed(g, mem, place) && s in place
    ensures Through(g, mem, place, s, x, Walk(g, mem, place, s, x))
    decreases place[s].level
  {
    assert WellPlaced(g, mem, place, s);
    var i := g.Index(x, place[s].level);
    if mem[s][i].kind == Table {
      assert SlotOk(g, mem, place, s, i);
      WalkThrough(g, mem, place, mem[s][i].address, x);
    }
  }

  /** What a descriptor of a level-`l` table translates its chunk to. */
  function ChunkMapping(g: Geometry, d: Descriptor, l: nat): Option<Mapping>
    requires g.Valid()
  {
    if d.kind == Page then Some(Mapping(d.address, g.Chunk(l), d.writeProtect, d.cacheInhibit)) else None
  }

  /** A descriptor write, seen through every root: the chunk of one root takes the new mapping and nothing else
      moves. */
  ghost predicate ChunkSet(g: Geometry, mem: Memory, mem': Memory, place: map<nat, Place>, root: nat, va: nat, l: nat,
      d: Descriptor)
    requires WellFormed(g, mem, place) && WellFormed(g, mem', place)
  {
    forall r, x :: IsRoot(g, place, r) && 0 <= x < g.Reach() ==>
      Translate(g, mem', place, r, x)
      == if r == root && va <= x < va + g.Chunk(l) then ChunkMapping(g, d, l) else Translate(g, mem, place, r, x)
  }

  lemma StoreSetsChunk(g: Geometry, mem: Memory, place: map<nat, Place>, root: nat, seen: nat, t: nat, i: nat,
      va: nat, d: Descriptor)
    requires WellFormed(g, mem, place) && IsRoot(g, place, root) && t in place && place[t].root == root
    requires Through(g, mem, place, root, seen, t) && WellPlaced(g, mem, place, t)
    requires g.Frame(seen, place[t].level + 1) == place[t].number
    requires i < g.tableSize && Leaf(d)
    requires va % g.Chunk(place[t].level) == 0 && g.Frame(va, place[t].level) == place[t].number * g.tableSize + i
    ensures WellFormed(g, Store(mem, t, i, d), place)
    ensures ChunkSet(g, mem, Store(mem, t, i, d), place, root, va, place[t].level, d)
    ensures Through(g, Store(mem, t, i, d), place, root, seen, t)
  {
    var mem', l := Store(mem, t, i, d), place[t].level;
    StoreWellFormed(g, mem, place, t, i, d);
    ThroughStore(g, mem, place, t, i, d, root, seen, t);
    forall r, x | IsRoot(g, place, r) && 0 <= x < g.Reach()
      ensures Translate(g, mem', place, r, x)
              == if r == root && va <= x < va + g.Chunk(l) then ChunkMapping(g, d, l)
                else Translate(g, mem, place, r, x)
    {
      g.WithinReach(x);
      g.AlignedChunk(va, x, l);
      if r == root && va <= x < va + g.Chunk(l) {
        g.SlotOf(x, l, place[t].number, i);
        StoreHere(g, mem, place, t, i, d, root, seen, x);
      } else {
        StoreElsewhere(g, mem, place, t, i, d, r, x);
      }
    }
  }

  /** `x` lies inside a mapped page but not at its first byte. */
  ghost predicate Straddled(g: Geometry, mem: Memory, place: map<nat, Place>, r: nat, x: nat)
    requires WellFormed(g, mem, place) && r in place
  {
    var m := Translate(g, mem, place, r, x);
    m.Some? && m.value.size > 0 && x % m.value.size != 0
  }

  /** Inside a page, the address before is in it as well. */
  lemma InsideShared(g: Geometry, mem: Memory, place: map<nat, Place>, r: nat, x: nat)
    requires WellFormed(g, mem, place) && r in place && x > 0 && Straddled(g, mem, place, r, x)
    ensures Translate(g, mem, place, r, x - 1).Some?
    ensures Translate(g, mem, place, r, x - 1).value.size == Translate(g, mem, place, r, x).value.size
  {
    var l := place[Walk(g, mem, place, r, x)].level;
    PredQuotient(x, g.Chunk(l));
    g.FrameIsQuotient(x, l);
    g.FrameIsQuotient(x - 1, l);
    SamePage(g, mem, place, r, x, x - 1);
  }

  lemma NotInsidePage(g: Geometry, mem: Memory, place: map<nat, Place>, r: nat, x: nat)
    requires WellFormed(g, mem, place) && r in place && x > 0
    requires Translate(g, mem, place, r, x - 1) == None
    ensures !Straddled(g, mem, place, r, x)
  {
    if Straddled(g, mem, place, r, x) {
      InsideShared(g, mem, place, r, x);
      assert false;
    }
  }

  lemma ChunkFitsReach(g: Geometry, va: nat, l: nat)
    requires g.Valid() && l < g.levels && va < g.Reach() && va % g.Chunk(l) == 0
    ensures va + g.Chunk(l) <= g.Reach()
  {
    g.ChunkMultiple(l, g.levels);
    MultipleGap(va, g.Reach(), g.Chunk(l));
  }

  /** The slot get_table chose lies wholly in what is left of the range. */
  lemma LookupFits(g: Geometry, mem: Memory, place: map<nat, Place>, root: nat, va: nat, end: nat, t: nat)
    requires WellFormed(g, mem, place) && IsRoot(g, place, root) && t in place && WellPlaced(g, mem, place, t)
    requires Through(g, mem, place, root, va, t)
    requires va < end <= g.Reach() && va % g.pageSize == 0 && end % g.pageSize == 0
    requires var l := place[t].level; var k := mem[t][g.Index(va, l)].kind;
             || (k == Invalid && (l == 0 || (va % g.Chunk(l) == 0 && end - va >= g.Chunk(l))))
             || (k == Page && !Straddled(g, mem, place, root, va)
             && (end < g.Reach() ==> !Straddled(g, mem, place, root, end)))
    ensures va % g.Chunk(place[t].level) == 0 && va + g.Chunk(place[t].level) <= end
  {
    var l := place[t].level;
    if mem[t][g.Index(va, l)].kind == Page {
      WalkEndsThrough(g, mem, place, root, va, t);
      assert Translate(g, mem, place, root, va).value.size == g.Chunk(l);
      ChunkFitsReach(g, va, l);
      if end < va + g.Chunk(l) {
        g.AlignedChunk(va, end, l);
        SamePage(g, mem, place, root, va, end);
        assert false;
      }
    } else if l == 0 {
      MultipleGap(va, end, g.pageSize);
    }
  }

  const ENOENT := -2
  const EFAULT := -14
  const EEXIST := -17

  datatype Op = Map | Unmap
  datatype MapType = Unallocated | Fixed

  /** The arguments of mmu_table_map, the flags word split into its fields. */
  datatype Request = Request(root: nat, start: nat, size: nat, op: Op, ty: MapType, write: bool, nocache: bool) {
    function End(): nat {
      start + size
    }

    /** The descriptor stored for the chunk that starts at `va`. */
    function Entry(va: nat): Descriptor {
      if op == Map && ty == Fixed then Descriptor(Page, va, !write, nocache)
         else Descriptor(Invalid, 0, !write, nocache)
    }

    /** What the request asks address `x` of its range to translate to. */
    ghost predicate Granted(x: nat, m: Option<Mapping>) {
      if op == Map && ty == Fixed then
        && m.Some? && m.value.size > 0 && m.value.Physical(x) == x
        && m.value.writeProtect == !write && m.value.cacheInhibit == nocache
        && start <= x - x % m.value.size && x - x % m.value.size + m.value.size <= End()
      else
        m == None
    }
  }

  /** The range is unmapped (for a map), or cuts no mapped page in two (for an unmap). */
  ghost predicate Clean(g: Geometry, mem: Memory, place: map<nat, Place>, q: Request)
    requires WellFormed(g, mem, place) && q.root in place
  {
    match q.op
    case Map => forall x :: q.start <= x < q.End() ==> Translate(g, mem, place, q.root, x) == None
    case Unmap =>
      && !Straddled(g, mem, place, q.root, q.start)
      && (q.End() < g.Reach() ==> !Straddled(g, mem, place, q.root, q.End()))
  }

  /** The request has been granted on [start, va) and nothing else has moved. */
  ghost predicate GrantedUpTo(g: Geometry, mem0: Memory, place0: map<nat, Place>, mem: Memory, place: map<nat, Place>,
      q: Request, va: nat)
    requires WellFormed(g, mem0, place0) && WellFormed(g, mem, place) && q.root in place0 && q.root in place
  {
    && (forall x :: q.start <= x < va ==> q.Granted(x, Translate(g, mem, place, q.root, x)))
    && (forall x :: 0 <= x < g.Reach() && !(q.start <= x < va) ==>
          Translate(g, mem, place, q.root, x) == Translate(g, mem0, place0, q.root, x))
  }

  /** Tables stay in place, and no other root sees a change. */
  ghost predicate OthersKept(g: Geometry, mem0: Memory, place0: map<nat, Place>, mem: Memory, place: map<nat, Place>,
      root: nat)
    requires WellFormed(g, mem0, place0) && WellFormed(g, mem, place)
  {
    && (forall p :: p in place0 ==> p in place && place[p] == place0[p])
    && (forall r, x :: IsRoot(g, place0, r) && r != root && 0 <= x < g.Reach() ==>
          Translate(g, mem, place, r, x) == Translate(g, mem0, place0, r, x))
  }

  lemma StoreKeepsOthers(g: Geometry, mem0: Memory, place0: map<nat, Place>, mem: Memory, place: map<nat, Place>,
      root: nat, t: nat, i: nat, d: Descriptor)
    requires WellFormed(g, mem0, place0) && WellFormed(g, mem, place) && OthersKept(g, mem0, place0, mem, place, root)
    requires t in place && place[t].root == root && i < g.tableSize && Leaf(d)
    ensures WellPlaced(g, mem, place, t) && WellFormed(g, Store(mem, t, i, d), place)
    ensures OthersKept(g, mem0, place0, Store(mem, t, i, d), place, root)
  {
    StoreWellFormed(g, mem, place, t, i, d);
    forall r, x | IsRoot(g, place0, r) && r != root && 0 <= x < g.Reach()
      ensures Translate(g, Store(mem, t, i, d), place, r, x) == Translate(g, mem0, place0, r, x)
    {
      g.WithinReach(x);
      StoreElsewhere(g, mem, place, t, i, d, r, x);
    }
  }

  lemma ChunkGrants(g: Geometry, mem0: Memory, place0: map<nat, Place>, mem: Memory, mem': Memory,
      place: map<nat, Place>, q: Request, va: nat, l: nat)
    requires WellFormed(g, mem0, place0) && WellFormed(g, mem, place) && WellFormed(g, mem', place)
    requires q.root in place0 && IsRoot(g, place, q.root) && q.start <= va && va + g.Chunk(l) <= q.End() <= g.Reach()
    requires GrantedUpTo(g, mem0, place0, mem, place, q, va)
    requires ChunkSet(g, mem, mem', place, q.root, va, l, q.Entry(va))
    requires va % g.Chunk(l) == 0
    ensures GrantedUpTo(g, mem0, place0, mem', place, q, va + g.Chunk(l))
  {
    forall x | q.start <= x < va + g.Chunk(l)
      ensures q.Granted(x, Translate(g, mem', place, q.root, x))
    {
      if x >= va {
        g.AlignedChunk(va, x, l);
      }
    }
  }

  /** In a clean range, the slot get_table chooses lies wholly in what is left of it. */
  lemma CleanLookup(g: Geometry, mem0: Memory, place0: map<nat, Place>, mem: Memory, place: map<nat, Place>,
      q: Request, va: nat, t: nat)
    requires WellFormed(g, mem0, place0) && WellFormed(g, mem, place) && IsRoot(g, place0, q.root)
    requires IsRoot(g, place, q.root)
    requires Clean(g, mem0, place0, q) && GrantedUpTo(g, mem0, place0, mem, place, q, va)
    requires q.start <= va < q.End() <= g.Reach() && va % g.pageSize == 0 && q.End() % g.pageSize == 0
    requires t in place && WellPlaced(g, mem, place, t) && Through(g, mem, place, q.root, va, t)
    requires var l := place[t].level; var k := mem[t][g.Index(va, l)].kind;
             k == Page || (k == Invalid && (l == 0 || (va % g.Chunk(l) == 0 && q.End() - va >= g.Chunk(l))))
    ensures va % g.Chunk(place[t].level) == 0 && va + g.Chunk(place[t].level) <= q.End()
  {
    if mem[t][g.Index(va, place[t].level)].kind == Page {
      WalkEndsThrough(g, mem, place, q.root, va, t);
      assert Translate(g, mem, place, q.root, va).Some?;
      if va > q.start {
        assert q.Granted(va - 1, Translate(g, mem, place, q.root, va - 1));
        NotInsidePage(g, mem, place, q.root, va);
      }
    }
    LookupFits(g, mem, place, q.root, va, q.End(), t);
  }

  /** In a clean range, what is left of it takes in a page that serves its first address. */
  lemma CleanCovers(g: Geometry, mem0: Memory, place0: map<nat, Place>, mem: Memory, place: map<nat, Place>,
      q: Request, va: nat, l: nat)
    requires WellFormed(g, mem0, place0) && WellFormed(g, mem, place) && IsRoot(g, place0, q.root)
    requires IsRoot(g, place, q.root)
    requires Clean(g, mem0, place0, q) && GrantedUpTo(g, mem0, place0, mem, place, q, va)
    requires q.start <= va < q.End() <= g.Reach() && va % g.pageSize == 0 && q.End() % g.pageSize == 0
    ensures var m := Translate(g, mem, place, q.root, va);
            m.Some? && m.value.size == g.Chunk(l) ==> va % g.Chunk(l) == 0 && va + g.Chunk(l) <= q.End()
  {
    var m, w := Translate(g, mem, place, q.root, va), Walk(g, mem, place, q.root, va);
    if m.Some? {
      WalkThrough(g, mem, place, q.root, va);
      CleanLookup(g, mem0, place0, mem, place, q, va, w);
    }
  }

  /** How mmu_table_map ends: 0, a negative error, or a kernel panic. */
  datatype Outcome = Done | Error(code: int) | Panic

  /** mmu_table_copy's effect on a translation: the write-protect bit may be forced on. */
  function Protect(m: Option<Mapping>, cow: bool): Option<Mapping> {
    match m
    case None => None
    case Some(v) => Some(v.(writeProtect := v.writeProtect || cow))
  }

  /** A range that is clean to be mapped has no large pages, as it has none. */
  lemma CleanSmall(g: Geometry, mem: Memory, place: map<nat, Place>, q: Request)
    requires WellFormed(g, mem, place) && q.root in place
    ensures Clean(g, mem, place, q) && q.op == Map ==> SmallPages(g, mem, place, q.root, q.start, q.End())
  {
  }

  /** No large page serves an address of the range. */
  ghost predicate SmallPages(g: Geometry, mem: Memory, place: map<nat, Place>, r: nat, start: nat, end: nat)
    requires WellFormed(g, mem, place) && r in place
  {
    forall x :: start <= x < end && Translate(g, mem, place, r, x).Some? ==>
      Translate(g, mem, place, r, x).value.size == g.pageSize
  }

  /** [start, va) of `src` has been copied to `dest`, write-protecting both if `cow`, and nothing else has moved. */
  ghost predicate CopiedUpTo(g: Geometry, mem0: Memory, place0: map<nat, Place>, mem: Memory, place: map<nat, Place>,
      dest: nat, src: nat, cow: bool, start: nat, va: nat)
    requires WellFormed(g, mem0, place0) && WellFormed(g, mem, place) && src in place0
  {
    && (forall p :: p in place0 ==> p in place && place[p] == place0[p])
    && (forall r, x :: IsRoot(g, place0, r) && 0 <= x < g.Reach() ==>
          Translate(g, mem, place, r, x)
          == if (r == dest || r == src) && start <= x < va then Protect(Translate(g, mem0, place0, src, x), cow)
             else Translate(g, mem0, place0, r, x))
  }

  /** The slot (t, i) serves `va`, and its chunk starts there. */
  ghost predicate SlotFor(g: Geometry, mem: Memory, place: map<nat, Place>, root: nat, seen: nat, t: nat, i: nat,
      va: nat)
    requires WellFormed(g, mem, place) && root in place
  {
    && t in place && place[t].root == root && WellPlaced(g, mem, place, t)
    && Through(g, mem, place, root, seen, t) && g.Frame(seen, place[t].level + 1) == place[t].number
    && i < g.tableSize && va % g.Chunk(place[t].level) == 0
    && g.Frame(va, place[t].level) == place[t].number * g.tableSize + i
  }

  lemma FoundSlot(g: Geometry, mem: Memory, place: map<nat, Place>, root: nat, t: nat, va: nat)
    requires WellFormed(g, mem, place) && IsRoot(g, place, root) && t in place && place[t].root == root
    requires va < g.Reach()
    requires WellPlaced(g, mem, place, t) && Through(g, mem, place, root, va, t) && va % g.Chunk(place[t].level) == 0
    ensures SlotFor(g, mem, place, root, va, t, g.Index(va, place[t].level), va)
  {
    g.WithinReach(va);
    ThroughNumber(g, mem, place, root, va, t);
    g.FrameSplit(va, place[t].level);
  }

  /** The slot for an aligned chunk decides the translation of its every address. */
  lemma SlotView(g: Geometry, mem: Memory, place: map<nat, Place>, root: nat, seen: nat, t: nat, i: nat, va: nat)
    requires WellFormed(g, mem, place) && IsRoot(g, place, root) && SlotFor(g, mem, place, root, seen, t, i, va)
    requires mem[t][i].kind != Table
    ensures forall x :: va <= x < va + g.Chunk(place[t].level) ==>
            Translate(g, mem, place, root, x) == ChunkMapping(g, mem[t][i], place[t].level)
  {
    var l := place[t].level;
    forall x | va <= x < va + g.Chunk(l)
      ensures Translate(g, mem, place, root, x) == ChunkMapping(g, mem[t][i], l)
    {
      g.AlignedChunk(va, x, l);
      g.SlotOf(x, l, place[t].number, i);
      ThroughShared(g, mem, place, root, seen, t, x);
    }
  }

  lemma SlotPage(g: Geometry, mem: Memory, place: map<nat, Place>, root: nat, seen: nat, t: nat, i: nat, va: nat)
    requires WellFormed(g, mem, place) && IsRoot(g, place, root) && SlotFor(g, mem, place, root, seen, t, i, va)
    ensures mem[t][i].kind == Page ==> Translate(g, mem, place, root, va).Some?
  {
    if mem[t][i].kind == Page {
      SlotView(g, mem, place, root, seen, t, i, va);
    }
  }

  /** A store sets its chunk, and leaves standing the slots of its own table and of other roots. */
  lemma StoreSlot(g: Geometry, mem: Memory, place: map<nat, Place>, root: nat, seen: nat, t: nat, i: nat, va: nat,
      d: Descriptor)
    requires WellFormed(g, mem, place) && IsRoot(g, place, root) && SlotFor(g, mem, place, root, seen, t, i, va)
    requires Leaf(d)
    ensures WellFormed(g, Store(mem, t, i, d), place)
    ensures ChunkSet(g, mem, Store(mem, t, i, d), place, root, va, place[t].level, d)
    ensures i + 1 < g.tableSize ==> SlotFor(g, Store(mem, t, i, d), place, root, seen, t, i + 1,
            va + g.Chunk(place[t].level))
  {
    StoreSetsChunk(g, mem, place, root, seen, t, i, va, d);
    g.NextChunk(va, place[t].level);
    assert WellPlaced(g, Store(mem, t, i, d), place, t);
  }

  lemma StoreOtherSlot(g: Geometry, mem: Memory, place: map<nat, Place>, t: nat, i: nat, d: Descriptor, root: nat,
      seen: nat, u: nat, j: nat, va: nat)
    requires WellFormed(g, mem, place) && t in place && i < g.tableSize && Leaf(d)
    requires WellPlaced(g, mem, place, t) && WellFormed(g, Store(mem, t, i, d), place)
    requires IsRoot(g, place, root) && place[t].root != root && SlotFor(g, mem, place, root, seen, u, j, va)
    ensures SlotFor(g, Store(mem, t, i, d), place, root, seen, u, j, va)
  {
    ThroughStore(g, mem, place, t, i, d, root, seen, u);
    assert WellPlaced(g, Store(mem, t, i, d), place, u);
  }

  /** Storing the protected source descriptor in both tables copies one page. */
  lemma CopyGrants(g: Geometry, mem0: Memory, place0: map<nat, Place>, mem: Memory, mem1: Memory, mem2: Memory,
      place: map<nat, Place>, dest: nat, src: nat, cow: bool, start: nat, va: nat, d: Descriptor)
    requires WellFormed(g, mem0, place0) && WellFormed(g, mem, place) && WellFormed(g, mem1, place)
    requires WellFormed(g, mem2, place)
    requires IsRoot(g, place0, src) && IsRoot(g, place0, dest) && start <= va && va + g.pageSize <= g.Reach()
    requires CopiedUpTo(g, mem0, place0, mem, place, dest, src, cow, start, va)
    requires forall x :: va <= x < va + g.pageSize ==> Translate(g, mem, place, src, x) == ChunkMapping(g, d, 0)
    requires var d' := d.(writeProtect := d.writeProtect || cow);
             ChunkSet(g, mem, mem1, place, dest, va, 0, d') && ChunkSet(g, mem1, mem2, place, src, va, 0, d')
    ensures CopiedUpTo(g, mem0, place0, mem2, place, dest, src, cow, start, va + g.pageSize)
  {
    forall r, x | IsRoot(g, place0, r) && 0 <= x < g.Reach()
      ensures Translate(g, mem2, place, r, x)
              == if (r == dest || r == src) && start <= x < va + g.pageSize then
                Protect(Translate(g, mem0, place0, src, x), cow)
                 else Translate(g, mem0, place0, r, x)
    {
      assert Translate(g, mem1, place, r, x)
             == if r == dest && va <= x < va + g.pageSize then
               ChunkMapping(g, d.(writeProtect := d.writeProtect || cow), 0)
                else Translate(g, mem, place, r, x);
      assert Translate(g, mem, place, src, x)
             == if start <= x < va then Protect(Translate(g, mem0, place0, src, x), cow)
               else Translate(g, mem0, place0, src, x);
    }
  }

  /** One turn of mmu_table_copy's loop, on leaf tables: the page at `va` is shared, write-protected on both
      sides if `cow`. */
  function CopyEntry(mem: Memory, td: nat, ts: nat, i: nat, cow: bool): Memory
    requires td in mem && ts in mem && i < |mem[td]| && i < |mem[ts]|
  {
    var d := mem[ts][i].(writeProtect := mem[ts][i].writeProtect || cow);
    var mem1 := Store(mem, td, i, d);
    Store(mem1, ts, i, mem1[ts][i].(writeProtect := mem1[ts][i].writeProtect || cow))
  }

  lemma CopyEntryCopies(g: Geometry, mem0: Memory, place0: map<nat, Place>, mem: Memory, place: map<nat, Place>,
      dest: nat, src: nat, cow: bool, start: nat, seen: nat, td: nat, ts: nat, i: nat, va: nat)
    requires WellFormed(g, mem0, place0) && WellFormed(g, mem, place)
    requires IsRoot(g, place0, dest) && IsRoot(g, place0, src) && IsRoot(g, place, dest) && IsRoot(g, place, src)
    requires dest != src
    requires SlotFor(g, mem, place, dest, seen, td, i, va) && SlotFor(g, mem, place, src, seen, ts, i, va)
    requires place[td].level == place[ts].level == 0
    requires start <= va && va + g.pageSize <= g.Reach()
    requires CopiedUpTo(g, mem0, place0, mem, place, dest, src, cow, start, va)
    ensures var mem' := CopyEntry(mem, td, ts, i, cow);
            && WellFormed(g, mem', place)
            && CopiedUpTo(g, mem0, place0, mem', place, dest, src, cow, start, va + g.pageSize)
            && (i + 1 < g.tableSize ==>
                  && SlotFor(g, mem', place, dest, seen, td, i + 1, va + g.pageSize)
                  && SlotFor(g, mem', place, src, seen, ts, i + 1, va + g.pageSize))
  {
    var entry := mem[ts][i];
    var d := entry.(writeProtect := entry.writeProtect || cow);
    assert SlotOk(g, mem, place, ts, i);
    SlotView(g, mem, place, src, seen, ts, i, va);
    var mem1 := Store(mem, td, i, d);
    StoreSlot(g, mem, place, dest, seen, td, i, va, d);
    StoreOtherSlot(g, mem, place, td, i, d, src, seen, ts, i, va);
    var mem2 := Store(mem1, ts, i, d);
    StoreSlot(g, mem1, place, src, seen, ts, i, va, d);
    if i + 1 < g.tableSize {
      StoreOtherSlot(g, mem1, place, ts, i, d, dest, seen, td, i + 1, va + g.pageSize);
    }
    CopyGrants(g, mem0, place0, mem, mem1, mem2, place, dest, src, cow, start, va, entry);
  }

  /** The pages that serve a granted range do not stick out of it. */
  lemma GrantedEdges(g: Geometry, mem: Memory, place: map<nat, Place>, q: Request)
    requires WellFormed(g, mem, place) && q.root in place && q.op == Map && q.ty == Fixed && 0 < q.size
    requires q.Granted(q.start, Translate(g, mem, place, q.root, q.start))
    requires q.Granted(q.End() - 1, Translate(g, mem, place, q.root, q.End() - 1))
    ensures !Straddled(g, mem, place, q.root, q.start) && !Straddled(g, mem, place, q.root, q.End())
  {
    var x := q.End();
    if Straddled(g, mem, place, q.root, x) {
      var l := place[Walk(g, mem, place, q.root, x)].level;
      PredQuotient(x, g.Chunk(l));
      g.FrameIsQuotient(x, l);
      g.FrameIsQuotient(x - 1, l);
      SamePage(g, mem, place, q.root, x, x - 1);
      assert false;
    }
  }

  /** Unmapping a range that was mapped into unmapped space is clean, and brings every translation back. */
  lemma UnmapUndoesMap(g: Geometry, mem0: Memory, place0: map<nat, Place>, mem1: Memory, place1: map<nat, Place>,
      mem2: Memory, place2: map<nat, Place>, q: Request)
    requires WellFormed(g, mem0, place0) && WellFormed(g, mem1, place1) && WellFormed(g, mem2, place2)
    requires q.root in place0 && q.root in place1 && q.root in place2 && q.op == Map && q.ty == Fixed && 0 < q.size
    requires q.End() <= g.Reach()
    requires Clean(g, mem0, place0, q) && GrantedUpTo(g, mem0, place0, mem1, place1, q, q.End())
    ensures Clean(g, mem1, place1, q.(op := Unmap))
    ensures GrantedUpTo(g, mem1, place1, mem2, place2, q.(op := Unmap), q.End()) ==>
              forall x :: 0 <= x < g.Reach() ==> Translate(g, mem2, place2, q.root, x) == Translate(g, mem0, place0,
                q.root, x)
  {
    GrantedEdges(g, mem1, place1, q);
  }

  /** Addresses a whole reach apart share every slot, so the tables tell all 32-bit addresses apart only when
      nothing is shifted out. */
  lemma {:induction false} Aliased(g: Geometry, mem: Memory, place: map<nat, Place>, s: nat, x: nat)
    requires WellFormed(g, mem, place) && s in place
    ensures Translate(g, mem, place, s, x + g.Reach()) == Translate(g, mem, place, s, x)
    decreases place[s].level
  {
    assert WellPlaced(g, mem, place, s);
    var l := place[s].level;
    g.IndexWraps(x, l);
    var i := g.Index(x, l);
    if mem[s][i].kind == Table {
      assert SlotOk(g, mem, place, s, i);
      Aliased(g, mem, place, mem[s][i].address, x);
    }
  }

  /** A new root translates nothing. */
  lemma RootViews(g: Geometry, mem: Memory, place: map<nat, Place>, root: nat)
    requires WellFormed(g, mem, place) && root != 0 && root !in place && root !in mem
    ensures var mem', place' := mem[root := EmptyTable(g.tableSize)], place[root := Place(root, g.levels - 1, 0)];
            WellFormed(g, mem', place') && forall x :: 0 <= x ==> Translate(g, mem', place', root, x) == None
  {
    var mem', place' := mem[root := EmptyTable(g.tableSize)], place[root := Place(root, g.levels - 1, 0)];
    forall t | t in place'
      ensures WellPlaced(g, mem', place', t)
    {
      if t in place {
        assert WellPlaced(g, mem, place, t);
        forall i | 0 <= i < g.tableSize
          ensures SlotOk(g, mem', place', t, i)
        {
          assert SlotOk(g, mem, place, t, i);
        }
      }
    }
  }

  lemma {:induction false} RootWalk(g: Geometry, mem: Memory, place: map<nat, Place>, root: nat, mem': Memory,
      place': map<nat, Place>, t: nat, x: nat)
    requires WellFormed(g, mem, place) && root !in place && root !in mem && WellFormed(g, mem', place')
    requires mem' == mem[root := EmptyTable(g.tableSize)] && place' == place[root := Place(root, g.levels - 1, 0)]
    requires t in place
    ensures Walk(g, mem', place', t, x) == Walk(g, mem, place, t, x)
    decreases place[t].level
  {
    assert WellPlaced(g, mem, place, t);
    var i := g.Index(x, place[t].level);
    assert SlotOk(g, mem, place, t, i);
    if mem[t][i].kind == Table {
      RootWalk(g, mem, place, root, mem', place', mem[t][i].address, x);
    }
  }

  lemma RootLeaves(g: Geometry, mem: Memory, place: map<nat, Place>, root: nat)
    requires WellFormed(g, mem, place) && root != 0 && root !in place && root !in mem
    ensures var mem', place' := mem[root := EmptyTable(g.tableSize)], place[root := Place(root, g.levels - 1, 0)];
            WellFormed(g, mem', place') && LeavesKept(g, mem, place, mem', place')
  {
    RootViews(g, mem, place, root);
    var mem', place' := mem[root := EmptyTable(g.tableSize)], place[root := Place(root, g.levels - 1, 0)];
    forall r: nat, x: nat | r in place && HasLeaf(g, mem, place, r, x)
      ensures HasLeaf(g, mem', place', r, x)
    {
      RootWalk(g, mem, place, root, mem', place', r, x);
    }
  }

  lemma RootOthers(g: Geometry, mem: Memory, place: map<nat, Place>, root: nat)
    requires WellFormed(g, mem, place) && root != 0 && root !in place && root !in mem
    ensures var mem', place' := mem[root := EmptyTable(g.tableSize)], place[root := Place(root, g.levels - 1, 0)];
            WellFormed(g, mem', place') && OthersKept(g, mem, place, mem', place', root)
  {
    RootViews(g, mem, place, root);
    var mem', place' := mem[root := EmptyTable(g.tableSize)], place[root := Place(root, g.levels - 1, 0)];
    forall r, x | IsRoot(g, place, r) && 0 <= x < g.Reach()
      ensures Translate(g, mem', place', r, x) == Translate(g, mem, place, r, x)
    {
      RootWalk(g, mem, place, root, mem', place', r, x);
    }
  }

  // ----- leaf tables -----

  /** The walk of `x` goes all the way down, whether or not it finds a page there. */
  ghost predicate HasLeaf(g: Geometry, mem: Memory, place: map<nat, Place>, r: nat, x: nat)
    requires WellFormed(g, mem, place) && r in place
  {
    place[Walk(g, mem, place, r, x)].level == 0
  }

  ghost predicate LeavesKept(g: Geometry, mem: Memory, place: map<nat, Place>, mem': Memory, place': map<nat, Place>)
    requires WellFormed(g, mem, place) && WellFormed(g, mem', place')
  {
    forall r: nat, x: nat :: r in place && HasLeaf(g, mem, place, r, x) ==>
      r in place' && HasLeaf(g, mem', place', r, x)
  }

  lemma SameViewsLeaves(g: Geometry, mem: Memory, place: map<nat, Place>, mem': Memory, place': map<nat, Place>)
    requires WellFormed(g, mem, place) && WellFormed(g, mem', place') && SameViews(g, mem, place, mem', place')
    ensures LeavesKept(g, mem, place, mem', place')
  {
    forall r: nat, x: nat | r in place && HasLeaf(g, mem, place, r, x)
      ensures r in place' && HasLeaf(g, mem', place', r, x)
    {
      var w := Walk(g, mem, place, r, x);
      WalkThrough(g, mem, place, r, x);
      assert WellPlaced(g, mem', place', w) && SlotOk(g, mem', place', w, g.Index(x, 0));
      WalkEndsThrough(g, mem', place', r, x, w);
    }
  }

  /** A store in a leaf table leaves every walk as it was. */
  lemma {:induction false} LeafStoreWalk(g: Geometry, mem: Memory, place: map<nat, Place>, t: nat, i: nat,
      d: Descriptor, s: nat, x: nat)
    requires WellFormed(g, mem, place) && t in place && i < g.tableSize && Leaf(d) && s in place
    requires place[t].level == 0 && WellPlaced(g, mem, place, t) && WellFormed(g, Store(mem, t, i, d), place)
    ensures Walk(g, Store(mem, t, i, d), place, s, x) == Walk(g, mem, place, s, x)
    decreases place[s].level
  {
    var j := g.Index(x, place[s].level);
    assert WellPlaced(g, mem, place, s) && SlotOk(g, mem, place, s, j);
    if mem[s][j].kind == Table {
      LeafStoreWalk(g, mem, place, t, i, d, mem[s][j].address, x);
    }
  }

  lemma LeafStoreKeeps(g: Geometry, mem: Memory, place: map<nat, Place>, t: nat, i: nat, d: Descriptor)
    requires WellFormed(g, mem, place) && t in place && i < g.tableSize && Leaf(d)
    requires place[t].level == 0 && WellPlaced(g, mem, place, t) && WellFormed(g, Store(mem, t, i, d), place)
    ensures LeavesKept(g, mem, place, Store(mem, t, i, d), place)
  {
    forall r: nat, x: nat | r in place && HasLeaf(g, mem, place, r, x)
      ensures HasLeaf(g, Store(mem, t, i, d), place, r, x)
    {
      LeafStoreWalk(g, mem, place, t, i, d, r, x);
    }
  }

  /** Every address of [start, va) has a leaf table, and so does every one that had. */
  ghost predicate LeavesUpTo(g: Geometry, mem0: Memory, place0: map<nat, Place>, mem: Memory, place: map<nat, Place>,
      root: nat, start: nat, va: nat)
    requires WellFormed(g, mem0, place0) && WellFormed(g, mem, place) && root in place
  {
    && LeavesKept(g, mem0, place0, mem, place)
    && forall x :: start <= x < va ==> HasLeaf(g, mem, place, root, x)
  }

  lemma LeafSlot(g: Geometry, mem: Memory, place: map<nat, Place>, root: nat, seen: nat, t: nat, i: nat, va: nat)
    requires WellFormed(g, mem, place) && IsRoot(g, place, root) && SlotFor(g, mem, place, root, seen, t, i, va)
    requires place[t].level == 0
    ensures forall x :: va <= x < va + g.pageSize ==> HasLeaf(g, mem, place, root, x)
  {
    forall x | va <= x < va + g.pageSize
      ensures HasLeaf(g, mem, place, root, x)
    {
      g.AlignedChunk(va, x, 0);
      g.SlotOf(x, 0, place[t].number, i);
      ThroughShared(g, mem, place, root, seen, t, x);
      assert SlotOk(g, mem, place, t, g.Index(x, 0));
    }
  }

  /** A lookup that leads to a leaf table, and a store there, take in one page more. */
  lemma LeafTurn(g: Geometry, mem0: Memory, place0: map<nat, Place>, mem1: Memory, place1: map<nat, Place>,
      mem: Memory, place: map<nat, Place>, root: nat, start: nat, va: nat, seen: nat, t: nat, i: nat, d: Descriptor)
    requires WellFormed(g, mem0, place0) && WellFormed(g, mem1, place1) && WellFormed(g, mem, place)
    requires root in place1 && IsRoot(g, place, root) && LeavesUpTo(g, mem0, place0, mem1, place1, root, start, va)
    requires LeavesKept(g, mem1, place1, mem, place) && SlotFor(g, mem, place, root, seen, t, i, va)
    requires place[t].level == 0 && Leaf(d)
    ensures WellFormed(g, Store(mem, t, i, d), place)
    ensures LeavesUpTo(g, mem0, place0, Store(mem, t, i, d), place, root, start, va + g.pageSize)
  {
    StoreWellFormed(g, mem, place, t, i, d);
    LeafStoreKeeps(g, mem, place, t, i, d);
    LeafSlot(g, mem, place, root, seen, t, i, va);
  }

  /** Leaf tables hold what they did. */
  ghost predicate LeafTablesSame(mem: Memory, place: map<nat, Place>, mem': Memory) {
    forall t :: t in place && place[t].level == 0 && t in mem ==> t in mem' && mem'[t] == mem[t]
  }

  /** The walk of `x` ends in a leaf table, at a descriptor with this cache bit; it holds no page unless one was set. */
  ghost predicate Marked(g: Geometry, mem: Memory, place: map<nat, Place>, r: nat, x: nat, inhibit: bool)
    requires WellFormed(g, mem, place) && r in place
  {
    var w := Walk(g, mem, place, r, x);
    assert WellPlaced(g, mem, place, w);
    place[w].level == 0 && mem[w][g.Index(x, 0)].cacheInhibit == inhibit
  }

  ghost predicate MarkedUpTo(g: Geometry, mem: Memory, place: map<nat, Place>, r: nat, start: nat, va: nat,
      inhibit: bool)
    requires WellFormed(g, mem, place) && r in place
  {
    forall x :: start <= x < va ==> Marked(g, mem, place, r, x, inhibit)
  }

  lemma MarkKept(g: Geometry, mem: Memory, place: map<nat, Place>, mem': Memory, place': map<nat, Place>, r: nat,
      x: nat,
      inhibit: bool)
    requires WellFormed(g, mem, place) && WellFormed(g, mem', place') && r in place && r in place'
    requires SameViews(g, mem, place, mem', place') && LeafTablesSame(mem, place, mem')
    requires Marked(g, mem, place, r, x, inhibit)
    ensures Marked(g, mem', place', r, x, inhibit)
  {
    var w := Walk(g, mem, place, r, x);
    WalkThrough(g, mem, place, r, x);
    assert WellPlaced(g, mem, place, w);
    assert WellPlaced(g, mem', place', w) && SlotOk(g, mem', place', w, g.Index(x, 0));
    WalkEndsThrough(g, mem', place', r, x, w);
  }

  /** A lookup that ends in a leaf table finds the cache bit that was there. */
  lemma FoundBit(g: Geometry, mem: Memory, place: map<nat, Place>, mem': Memory, place': map<nat, Place>, r: nat,
      x: nat,
      t: nat)
    requires WellFormed(g, mem, place) && WellFormed(g, mem', place') && r in place && r in place'
    requires SameViews(g, mem, place, mem', place') && LeafTablesSame(mem, place, mem')
    requires t in place' && WellPlaced(g, mem', place', t) && Walk(g, mem', place', r, x) == t
    ensures HasLeaf(g, mem, place, r, x) ==>
            mem'[t][g.Index(x, place'[t].level)].cacheInhibit == Marked(g, mem, place, r, x, true)
  {
    if HasLeaf(g, mem, place, r, x) {
      var inhibit := Marked(g, mem, place, r, x, true);
      assert Marked(g, mem, place, r, x, inhibit);
      MarkKept(g, mem, place, mem', place', r, x, inhibit);
    }
  }

  lemma MarksKept(g: Geometry, mem: Memory, place: map<nat, Place>, mem': Memory, place': map<nat, Place>, r: nat,
      start: nat, va: nat, inhibit: bool)
    requires WellFormed(g, mem, place) && WellFormed(g, mem', place') && r in place && r in place'
    requires SameViews(g, mem, place, mem', place') && LeafTablesSame(mem, place, mem')
    requires MarkedUpTo(g, mem, place, r, start, va, inhibit)
    ensures MarkedUpTo(g, mem', place', r, start, va, inhibit)
  {
    forall x | start <= x < va
      ensures Marked(g, mem', place', r, x, inhibit)
    {
      MarkKept(g, mem, place, mem', place', r, x, inhibit);
    }
  }

  lemma MarkTurn(g: Geometry, mem: Memory, place: map<nat, Place>, root: nat, start: nat, va: nat, seen: nat, t: nat,
      i: nat, d: Descriptor)
    requires WellFormed(g, mem, place) && IsRoot(g, place, root)
    requires MarkedUpTo(g, mem, place, root, start, va, d.cacheInhibit)
    requires SlotFor(g, mem, place, root, seen, t, i, va) && place[t].level == 0 && Leaf(d)
    ensures WellFormed(g, Store(mem, t, i, d), place)
    ensures MarkedUpTo(g, Store(mem, t, i, d), place, root, start, va + g.pageSize, d.cacheInhibit)
  {
    var mem' := Store(mem, t, i, d);
    StoreWellFormed(g, mem, place, t, i, d);
    forall x | start <= x < va + g.pageSize
      ensures Marked(g, mem', place, root, x, d.cacheInhibit)
    {
      LeafStoreWalk(g, mem, place, t, i, d, root, x);
      if x < va {
        assert Marked(g, mem, place, root, x, d.cacheInhibit);
      } else {
        g.AlignedChunk(va, x, 0);
        g.SlotOf(x, 0, place[t].number, i);
        StoreHere(g, mem, place, t, i, d, root, seen, x);
      }
    }
  }

  lemma CopyEntryLeaves(g: Geometry, mem0: Memory, place0: map<nat, Place>, mem1: Memory, place1: map<nat, Place>,
      mem: Memory, place: map<nat, Place>, dest: nat, src: nat, cow: bool, start: nat, va: nat, seen: nat, td: nat,
      ts: nat, i: nat)
    requires WellFormed(g, mem0, place0) && WellFormed(g, mem1, place1) && WellFormed(g, mem, place)
    requires dest in place1 && IsRoot(g, place, dest) && IsRoot(g, place, src)
    requires LeavesUpTo(g, mem0, place0, mem1, place1, dest, start, va) && LeavesKept(g, mem1, place1, mem, place)
    requires SlotFor(g, mem, place, dest, seen, td, i, va) && SlotFor(g, mem, place, src, seen, ts, i, va)
    requires place[td].level == place[ts].level == 0
    ensures var mem' := CopyEntry(mem, td, ts, i, cow);
            WellFormed(g, mem', place) && LeavesUpTo(g, mem0, place0, mem', place, dest, start, va + g.pageSize)
  {
    assert SlotOk(g, mem, place, ts, i);
    var d := mem[ts][i].(writeProtect := mem[ts][i].writeProtect || cow);
    LeafTurn(g, mem0, place0, mem1, place1, mem, place, dest, start, va, seen, td, i, d);
    var mem2 := Store(mem, td, i, d);
    assert WellPlaced(g, mem2, place, ts) && SlotOk(g, mem2, place, ts, i);
    var d2 := mem2[ts][i].(writeProtect := mem2[ts][i].writeProtect || cow);
    StoreWellFormed(g, mem2, place, ts, i, d2);
    LeafStoreKeeps(g, mem2, place, ts, i, d2);
  }
}
