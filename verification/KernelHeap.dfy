/**
 The kernel heap: an address-ordered first-fit free list threaded through the
 headers of the free blocks themselves. Adjacent free blocks are merged, and
 the free and live blocks together tile the pages obtained from the page
 allocator.
 */
module KernelHeap {
  import opened Common

  /** A stretch of heap memory, its header included. */
  datatype Block = Block(addr: nat, size: nat) {
    function End(): nat {
      addr + size
    }

    predicate Has(x: int) {
      addr <= x < End()
    }

    predicate Apart(b: Block) {
      End() <= b.addr || b.End() <= addr
    }
  }

  const HEADER := 8    // sizeof(struct block)
  const WORD_SIZE := 4   // sizeof(uintptr_t)

  /** align_up in 32-bit arithmetic. */
  function AlignUp(x: nat, a: nat): int
    requires a > 0
  {
    var y := (x + a - 1) % WORD32;
    y - y % a
  }

  /** The size of block that serves a request, header included. */
  function BlockSize(request: nat): nat {
    (AlignUp(request, WORD_SIZE) + HEADER) % WORD32
  }

  /** A block is large enough for its request exactly when rounding the request up does not wrap. */
  lemma BlockSizeIff(request: nat)
    requires request < WORD32
    ensures BlockSize(request) >= request + HEADER <==> request <= WORD32 - WORD_SIZE - HEADER
    ensures request <= WORD32 - WORD_SIZE - HEADER ==>
            BlockSize(request) < request + HEADER + WORD_SIZE && BlockSize(request) % WORD_SIZE == 0
  {
  }

  /** It is at least as large as its own header unless adding that wraps. */
  lemma HeaderFitsIff(request: nat)
    requires request < WORD32
    ensures BlockSize(request) >= HEADER <==> !(WORD32 - WORD_SIZE - HEADER < request <= WORD32 - WORD_SIZE)
  {
  }

  /** A run of pages is large enough for its block exactly when rounding up to pages does not wrap; if it does,
      no page at all is asked for. */
  lemma RunSizeIff(need: nat, pageSize: nat)
    requires 0 < need < WORD32 && 0 < pageSize <= WORD32
    ensures AlignUp(need, pageSize) >= need <==> need <= WORD32 - pageSize
    ensures need <= WORD32 - pageSize ==>
            AlignUp(need, pageSize) < need + pageSize && AlignUp(need, pageSize) % pageSize == 0
    ensures need > WORD32 - pageSize ==> AlignUp(need, pageSize) == 0
  {
    var y := need + pageSize - 1;
    if y < WORD32 {
      Aligned(y, pageSize);
    } else {
      SmallAligned(y - WORD32, pageSize);
    }
  }

  lemma Aligned(y: int, a: int)
    requires a > 0 && y >= 0
    ensures y - a < y - y % a <= y && (y - y % a) % a == 0
  {
    DivModUnique(y - y % a, a, y / a, 0);
  }

  lemma SmallAligned(y: int, a: int)
    requires 0 <= y < a
    ensures y % a == y
  {
  }

  /** A request of all but 4084 bytes of the address space asks for no page. */
  lemma LargeRequest()
    ensures BlockSize(WORD32 - 4084) == WORD32 - 4076 && AlignUp(BlockSize(WORD32 - 4084), 4096) == 0
  {
    RunSizeIff(WORD32 - 4076, 4096);
  }

  // ----- the free list as a value -----

  /** Where kmfree stops walking: at the first block that ends at `addr` or lies at or beyond it. */
  function Spot(free: seq<Block>, addr: nat): (k: nat)
    ensures k <= |free| && (k < |free| ==> free[k].End() == addr || free[k].addr >= addr)
    ensures forall j :: 0 <= j < k ==> free[j].End() != addr && free[j].addr < addr
  {
    if free == [] || free[0].End() == addr || free[0].addr >= addr then 0 else 1 + Spot(free[1..], addr)
  }

  /** How many blocks from the spot on `b` is merged with, and into what. */
  function Merge(free: seq<Block>, k: nat, b: Block): (r: (nat, Block))
    requires k <= |free|
    ensures k + r.0 <= |free|
  {
    if k == |free| then (0, b)
    else if free[k].End() == b.addr then
      var m := Block(free[k].addr, free[k].size + b.size);
      if k + 1 < |free| && m.End() == free[k + 1].addr then (2, Block(m.addr, m.size + free[k + 1].size)) else (1, m)
    else if b.End() == free[k].addr then (1, Block(b.addr, b.size + free[k].size))
    else (0, b)
  }

  /** `m` in place of the `n` blocks from `k` on. */
  function Splice(free: seq<Block>, k: nat, n: nat, m: Block): seq<Block>
    requires k + n <= |free|
  {
    free[..k] + [m] + free[k + n..]
  }

  /** kmfree: insert `b` at its spot, merged with the block before and the block after. */
  function Insert(free: seq<Block>, b: Block): seq<Block> {
    var k := Spot(free, b.addr);
    var (n, m) := Merge(free, k, b);
    Splice(free, k, n, m)
  }

  /** The first block of at least `need` bytes, or the length of the list. */
  function FirstFit(free: seq<Block>, need: nat): (i: nat)
    ensures i <= |free| && (i < |free| ==> free[i].size >= need)
    ensures forall j :: 0 <= j < i ==> free[j].size < need
  {
    if free == [] || free[0].size >= need then 0 else 1 + FirstFit(free[1..], need)
  }

  /** The part of a free block handed out, and the free list without it: a remainder too small for a header and
      8 bytes goes along. */
  function Take(free: seq<Block>, i: nat, need: nat): (Block, seq<Block>)
    requires i < |free| && need <= free[i].size
  {
    if free[i].size >= need + HEADER + 8 then
      (Block(free[i].addr, need), free[i := Block(free[i].addr + need, free[i].size - need)])
    else (free[i], free[..i] + free[i + 1..])
  }

  function Total(bs: seq<Block>): nat {
    if bs == [] then 0 else bs[0].size + Total(bs[1..])
  }

  predicate Holds(bs: seq<Block>, x: int) {
    exists i :: 0 <= i < |bs| && bs[i].Has(x)
  }

  /** In address order, no two touching, each with room for a header. */
  predicate Ordered(free: seq<Block>) {
    && (forall i :: 0 <= i < |free| ==> free[i].addr > 0 && free[i].size >= HEADER)
    && (forall i, j :: 0 <= i < j < |free| ==> free[i].End() < free[j].addr)
  }

  predicate AllApart(bs: seq<Block>, b: Block) {
    forall i :: 0 <= i < |bs| ==> bs[i].Apart(b)
  }

  lemma MergeLeft(free: seq<Block>, b: Block, k: nat, i: nat)
    requires Ordered(free) && AllApart(free, b) && b.size >= HEADER
    requires i < k <= |free| && free[i].End() != b.addr && free[i].addr < b.addr
    ensures free[i].End() < Merge(free, k, b).1.addr
  {
    assert free[i].Apart(b);
    assert k < |free| ==> free[i].End() < free[k].addr;
  }

  lemma MergeRight(free: seq<Block>, b: Block, k: nat, i: nat)
    requires Ordered(free) && AllApart(free, b) && b.size >= HEADER
    requires k < |free| && (free[k].End() == b.addr || free[k].addr >= b.addr) && k + Merge(free, k, b).0 <= i < |free|
    ensures Merge(free, k, b).1.End() < free[i].addr
  {
    assert free[i].Apart(b) && free[k].Apart(b);
    if i > k {
      assert free[k].End() < free[i].addr && free[k].End() < free[k + 1].addr;
      assert free[k + 1].Apart(b) && (i > k + 1 ==> free[k + 1].End() < free[i].addr);
    }
  }

  /** What is merged is exactly `b` and the free blocks it touches. */
  lemma MergeHas(free: seq<Block>, b: Block, x: int)
    ensures var k := Spot(free, b.addr);
            var (n, m) := Merge(free, k, b);
            m.Has(x) <==> b.Has(x) || Holds(free[k..k + n], x)
  {
    var k := Spot(free, b.addr);
    var (n, m) := Merge(free, k, b);
    var mid := free[k..k + n];
    assert n > 0 ==> mid[0] == free[k];
    assert n > 1 ==> mid[1] == free[k + 1];
  }

  lemma SpliceOrdered(free: seq<Block>, k: nat, n: nat, m: Block)
    requires Ordered(free) && k + n <= |free| && m.addr > 0 && m.size >= HEADER
    requires forall i :: 0 <= i < k ==> free[i].End() < m.addr
    requires forall i :: k + n <= i < |free| ==> m.End() < free[i].addr
    ensures Ordered(Splice(free, k, n, m))
  {
    var r := Splice(free, k, n, m);
    forall i, j | 0 <= i < j < |r|
      ensures r[i].End() < r[j].addr
    {
      assert r[i] == if i < k then free[i] else if i == k then m else free[i + n - 1];
      assert r[j] == if j < k then free[j] else if j == k then m else free[j + n - 1];
    }
  }

  lemma InsertOrdered(free: seq<Block>, b: Block)
    requires Ordered(free) && AllApart(free, b) && b.addr > 0 && b.size >= HEADER
    ensures Ordered(Insert(free, b))
  {
    var k := Spot(free, b.addr);
    var (n, m) := Merge(free, k, b);
    forall i | 0 <= i < k
      ensures free[i].End() < m.addr
    {
      MergeLeft(free, b, k, i);
    }
    forall i | k + n <= i < |free|
      ensures m.End() < free[i].addr
    {
      MergeRight(free, b, k, i);
    }
    SpliceOrdered(free, k, n, m);
  }

  lemma {:induction false} TotalConcat(a: seq<Block>, b: seq<Block>)
    ensures Total(a + b) == Total(a) + Total(b)
  {
    if a == [] {
      assert a + b == b;
    } else {
      TotalConcat(a[1..], b);
      assert (a + b)[1..] == a[1..] + b;
    }
  }

  lemma TotalThree(a: seq<Block>, b: seq<Block>, c: seq<Block>)
    ensures Total(a + b + c) == Total(a) + Total(b) + Total(c)
  {
    TotalConcat(a, b);
    TotalConcat(a + b, c);
  }

  lemma SpliceTotal(bs: seq<Block>, k: nat, n: nat, m: Block)
    requires k + n <= |bs|
    ensures Total(Splice(bs, k, n, m)) == Total(bs) - Total(bs[k..k + n]) + m.size
  {
    TotalThree(bs[..k], bs[k..k + n], bs[k + n..]);
    TotalThree(bs[..k], [m], bs[k + n..]);
    assert bs[..k] + bs[k..k + n] + bs[k + n..] == bs;
    assert Total([m]) == m.size;
  }

  lemma TotalFew(x: Block, y: Block)
    ensures Total([x]) == x.size && Total([x, y]) == x.size + y.size
  {
    assert [x, y][1..] == [y];
    assert Total([x, y]) == x.size + Total([y]);
  }

  lemma InsertTotal(free: seq<Block>, b: Block)
    ensures Total(Insert(free, b)) == Total(free) + b.size
  {
    var k := Spot(free, b.addr);
    var (n, m) := Merge(free, k, b);
    SpliceTotal(free, k, n, m);
    if n == 2 {
      assert free[k..k + 2] == [free[k], free[k + 1]];
      TotalFew(free[k], free[k + 1]);
    } else if n == 1 {
      assert free[k..k + 1] == [free[k]];
    }
  }

  lemma SpliceHolds(free: seq<Block>, k: nat, n: nat, m: Block, x: int)
    requires k + n <= |free|
    ensures Holds(Splice(free, k, n, m), x) <==> Holds(free[..k], x) || m.Has(x) || Holds(free[k + n..], x)
  {
    HoldsConcat(free[..k], [m], x);
    HoldsConcat(free[..k] + [m], free[k + n..], x);
    assert Holds([m], x) <==> m.Has(x) by {
      assert [m][0] == m;
    }
  }

  lemma HoldsConcat(a: seq<Block>, b: seq<Block>, x: int)
    ensures Holds(a + b, x) <==> Holds(a, x) || Holds(b, x)
  {
    if Holds(b, x) {
      var i :| 0 <= i < |b| && b[i].Has(x);
      assert (a + b)[|a| + i].Has(x);
    }
    if Holds(a, x) {
      var i :| 0 <= i < |a| && a[i].Has(x);
      assert (a + b)[i].Has(x);
    }
  }

  lemma HoldsParts(free: seq<Block>, k: nat, n: nat, x: int)
    requires k + n <= |free|
    ensures Holds(free, x) <==> Holds(free[..k], x) || Holds(free[k..k + n], x) || Holds(free[k + n..], x)
  {
    HoldsConcat(free[..k], free[k..k + n], x);
    HoldsConcat(free[..k] + free[k..k + n], free[k + n..], x);
    assert free == free[..k] + free[k..k + n] + free[k + n..];
  }

  /** The list then holds exactly the bytes it held and those of `b`. */
  lemma InsertHolds(free: seq<Block>, b: Block, x: int)
    ensures Holds(Insert(free, b), x) <==> Holds(free, x) || b.Has(x)
  {
    var k := Spot(free, b.addr);
    var (n, m) := Merge(free, k, b);
    SpliceHolds(free, k, n, m, x);
    HoldsParts(free, k, n, x);
    MergeHas(free, b, x);
  }

  lemma ApartByPoints(a: Block, b: Block)
    requires a.size > 0 && b.size > 0 && forall x :: a.Has(x) ==> !b.Has(x)
    ensures a.Apart(b)
  {
    assert a.Has(a.addr) && b.Has(b.addr);
  }

  lemma InsertApart(free: seq<Block>, b: Block, l: Block)
    requires Ordered(free) && AllApart(free, b) && b.addr > 0 && b.size >= HEADER
    requires l.size >= HEADER && AllApart(free, l) && b.Apart(l)
    ensures AllApart(Insert(free, b), l)
  {
    InsertOrdered(free, b);
    var r := Insert(free, b);
    forall i | 0 <= i < |r|
      ensures r[i].Apart(l)
    {
      forall x | r[i].Has(x)
        ensures !l.Has(x)
      {
        InsertHolds(free, b, x);
        assert Holds(r, x);
      }
      ApartByPoints(r[i], l);
    }
  }

  // ----- the heap -----

  /** `pages` are the runs obtained from the page allocator; the counters are those of struct heap. */
  datatype Heap = Heap(free: seq<Block>, live: seq<Block>, pages: seq<Block>, totalBytes: int, bytesFree: int,
      bytesAllocated: int)

  const EMPTY := Heap([], [], [], 0, 0, 0)

  ghost predicate LiveOk(h: Heap, j: nat)
    requires j < |h.live|
  {
    && h.live[j].addr > 0 && h.live[j].size >= HEADER
    && AllApart(h.free, h.live[j])
    && forall i :: 0 <= i < j ==> h.live[i].Apart(h.live[j])
  }

  /** Free and live blocks are disjoint and tile the pages obtained, and the counters are their sums. */
  ghost predicate Inv(h: Heap) {
    && Ordered(h.free)
    && (forall j :: 0 <= j < |h.live| ==> LiveOk(h, j))
    && (forall x :: Holds(h.pages, x) <==> Holds(h.free, x) || Holds(h.live, x))
    && h.bytesFree == Total(h.free) && h.bytesAllocated == Total(h.live) && h.totalBytes == Total(h.pages)
  }

  function Without(bs: seq<Block>, j: nat): seq<Block>
    requires j < |bs|
  {
    bs[..j] + bs[j + 1..]
  }

  /** kmfree of the live block number `j`. */
  function Release(h: Heap, j: nat): Heap
    requires j < |h.live|
  {
    var b := h.live[j];
    h.(free := Insert(h.free, b), live := Without(h.live, j), bytesFree := h.bytesFree + b.size,
      bytesAllocated := h.bytesAllocated - b.size)
  }

  /** kmalloc from free block `i`. */
  function TakeBlock(h: Heap, i: nat, need: nat): (Heap, Block)
    requires i < |h.free| && need <= h.free[i].size
  {
    var (b, free) := Take(h.free, i, need);
    (h.(free := free, live := h.live + [b], bytesFree := h.bytesFree - b.size,
      bytesAllocated := h.bytesAllocated + b.size), b)
  }

  /** A whole run of fresh pages becomes a live block. */
  function Grow(h: Heap, b: Block): Heap {
    h.(live := h.live + [b], pages := h.pages + [b], totalBytes := h.totalBytes + b.size,
      bytesAllocated := h.bytesAllocated + b.size)
  }

  /** The last live block is cut after `need` bytes. */
  function Cut(h: Heap, need: nat): Heap
    requires h.live != [] && need <= h.live[|h.live| - 1].size
  {
    var n := |h.live| - 1;
    var last := h.live[n];
    h.(live := h.live[..n] + [Block(last.addr, need), Block(last.addr + need, last.size - need)])
  }

  /** kmalloc from `run` bytes of fresh pages: what is left over, if worth a block, is freed like any other. */
  function TakePages(h: Heap, need: nat, run: nat, page: nat): (Heap, Block)
    requires need <= run
  {
    var h1 := Grow(h, Block(page, run));
    if run - need > HEADER + 8 then (Release(Cut(h1, need), |h.live| + 1), Block(page, need))
    else (h1, Block(page, run))
  }

  /** The block rounds up to no less than a header, and either a free block serves it or the pages it takes
      round up and are new to the heap. */
  predicate Legal(h: Heap, pageSize: nat, request: nat, page: nat) {
    && 0 < pageSize <= WORD32 && request < WORD32 && BlockSize(request) >= HEADER
    && (FirstFit(h.free, BlockSize(request)) == |h.free| ==>
          && BlockSize(request) <= WORD32 - pageSize
          && var run := AlignUp(BlockSize(request), pageSize);
             page != 0 && run >= 0 ==> AllApart(h.pages, Block(page, run)))
  }

  /** kmalloc, given what the page allocator would return: the block handed out, or None for a panic. */
  function Acquire(h: Heap, pageSize: nat, request: nat, page: nat): (Heap, Option<Block>)
    requires Legal(h, pageSize, request, page)
  {
    var need := BlockSize(request);
    var i := FirstFit(h.free, need);
    if i < |h.free| then
      var (h', b) := TakeBlock(h, i, need);
      (h', Some(b))
    else if page == 0 then (h, None)
    else
      RunSizeIff(need, pageSize);
      var (h', b) := TakePages(h, need, AlignUp(need, pageSize), page);
      (h', Some(b))
  }

  lemma WithoutTotal(bs: seq<Block>, j: nat)
    requires j < |bs|
    ensures Total(Without(bs, j)) == Total(bs) - bs[j].size
  {
    TotalThree(bs[..j], [bs[j]], bs[j + 1..]);
    TotalConcat(bs[..j], bs[j + 1..]);
    assert bs[..j] + [bs[j]] + bs[j + 1..] == bs;
  }

  lemma WithoutHolds(bs: seq<Block>, j: nat, x: int)
    requires j < |bs|
    ensures Holds(bs, x) <==> Holds(Without(bs, j), x) || bs[j].Has(x)
  {
    HoldsConcat(bs[..j], [bs[j]], x);
    HoldsConcat(bs[..j] + [bs[j]], bs[j + 1..], x);
    HoldsConcat(bs[..j], bs[j + 1..], x);
    assert bs[..j] + [bs[j]] + bs[j + 1..] == bs;
    assert Holds([bs[j]], x) <==> bs[j].Has(x) by {
      assert [bs[j]][0] == bs[j];
    }
  }

  /** Live blocks are pairwise apart, whichever way round. */
  lemma LiveApart(h: Heap, i: nat, j: nat)
    requires Inv(h) && i < |h.live| && j < |h.live| && i != j
    ensures h.live[i].Apart(h.live[j])
  {
    assert LiveOk(h, if i < j then j else i);
  }

  /** kmfree keeps the heap whole. */
  lemma ReleaseInv(h: Heap, j: nat)
    requires Inv(h) && j < |h.live|
    ensures Inv(Release(h, j)) && Release(h, j).pages == h.pages
    ensures multiset(Release(h, j).live) == multiset(h.live) - multiset{h.live[j]}
    ensures forall x :: Holds(Release(h, j).free, x) <==> Holds(h.free, x) || h.live[j].Has(x)
  {
    var b, h' := h.live[j], Release(h, j);
    assert h.live == h.live[..j] + [b] + h.live[j + 1..];
    assert LiveOk(h, j);
    InsertOrdered(h.free, b);
    InsertTotal(h.free, b);
    WithoutTotal(h.live, j);
    forall x
      ensures Holds(h'.free, x) <==> Holds(h.free, x) || b.Has(x)
      ensures Holds(h'.pages, x) <==> Holds(h'.free, x) || Holds(h'.live, x)
    {
      InsertHolds(h.free, b, x);
      WithoutHolds(h.live, j, x);
    }
    forall i | 0 <= i < |h'.live|
      ensures LiveOk(h', i)
    {
      ReleaseLive(h, j, i);
    }
  }

  lemma ReleaseLive(h: Heap, j: nat, i: nat)
    requires Inv(h) && j < |h.live| && i < |h.live| - 1
    ensures LiveOk(Release(h, j), i)
  {
    var i' := if i < j then i else i + 1;
    assert LiveOk(h, j) && LiveOk(h, i');
    LiveApart(h, j, i');
    InsertApart(h.free, h.live[j], h.live[i']);
  }

  // ----- kmalloc -----

  lemma SplitApart(free: seq<Block>, i: nat, need: nat, free': seq<Block>)
    requires Ordered(free) && i < |free| && need <= free[i].size
    requires free' == free[i := Block(free[i].addr + need, free[i].size - need)]
    ensures AllApart(free', Block(free[i].addr, need))
  {
    forall j | 0 <= j < |free'|
      ensures free'[j].Apart(Block(free[i].addr, need))
    {
      assert j < i ==> free[j].End() < free[i].addr;
      assert i < j ==> free[i].End() < free[j].addr;
    }
  }

  lemma TakeSplit(free: seq<Block>, i: nat, need: nat, free': seq<Block>)
    requires Ordered(free) && i < |free| && HEADER <= need && need + HEADER + 8 <= free[i].size
    requires free' == free[i := Block(free[i].addr + need, free[i].size - need)]
    ensures Ordered(free') && AllApart(free', Block(free[i].addr, need)) && Total(free') == Total(free) - need
  {
    var f := free[i];
    var rest := Block(f.addr + need, f.size - need);
    assert Splice(free, i, 1, rest) == free';
    SpliceOrdered(free, i, 1, rest);
    SpliceTotal(free, i, 1, rest);
    assert free[i..i + 1] == [f];
    TotalFew(f, f);
    SplitApart(free, i, need, free');
  }

  lemma WithoutOrdered(free: seq<Block>, i: nat)
    requires Ordered(free) && i < |free|
    ensures Ordered(Without(free, i))
  {
    var r := Without(free, i);
    assert forall j :: 0 <= j < i ==> r[j] == free[j];
    assert forall j :: i <= j < |r| ==> r[j] == free[j + 1];
  }

  lemma WithoutApart(free: seq<Block>, i: nat)
    requires Ordered(free) && i < |free|
    ensures AllApart(Without(free, i), free[i])
  {
    var r := Without(free, i);
    forall j | 0 <= j < |r|
      ensures r[j].Apart(free[i])
    {
      var j' := if j < i then j else j + 1;
      assert r[j] == free[j'];
      assert free[if j' < i then j' else i].End() < free[if j' < i then i else j'].addr;
    }
  }

  lemma TakeFits(free: seq<Block>, i: nat, need: nat, b: Block, free': seq<Block>)
    requires Ordered(free) && i < |free| && HEADER <= need <= free[i].size && (b, free') == Take(free, i, need)
    ensures need <= b.size <= free[i].size && b.addr == free[i].addr && b.size < need + HEADER + 8
    ensures Ordered(free') && AllApart(free', b) && Total(free') == Total(free) - b.size
  {
    if free[i].size >= need + HEADER + 8 {
      TakeSplit(free, i, need, free');
    } else {
      WithoutTotal(free, i);
      WithoutOrdered(free, i);
      WithoutApart(free, i);
    }
  }

  lemma TakeHolds(free: seq<Block>, i: nat, need: nat, x: int)
    requires i < |free| && need <= free[i].size
    ensures var (b, free') := Take(free, i, need);
            Holds(free, x) <==> Holds(free', x) || b.Has(x)
  {
    var f := free[i];
    WithoutHolds(free, i, x);
    if f.size >= need + HEADER + 8 {
      var rest := Block(f.addr + need, f.size - need);
      var free' := free[i := rest];
      WithoutHolds(free', i, x);
      assert Without(free', i) == Without(free, i);
    }
  }

  lemma TakeApart(free: seq<Block>, i: nat, need: nat, l: Block)
    requires Ordered(free) && i < |free| && HEADER <= need <= free[i].size && AllApart(free, l) && l.size >= HEADER
    ensures var (b, free') := Take(free, i, need); AllApart(free', l) && l.Apart(b)
  {
    assert free[i].Apart(l);
  }

  lemma AddLive(h: Heap, h': Heap, b: Block)
    requires h'.live == h.live + [b] && (forall j :: 0 <= j < |h.live| ==> LiveOk(h, j))
    requires b.addr > 0 && b.size >= HEADER && AllApart(h'.free, b) && AllApart(h.live, b)
    requires forall j :: 0 <= j < |h.live| ==> AllApart(h'.free, h.live[j])
    ensures forall j :: 0 <= j < |h'.live| ==> LiveOk(h', j)
  {
    forall j | 0 <= j < |h'.live|
      ensures LiveOk(h', j)
    {
      if j < |h.live| {
        assert LiveOk(h, j);
      }
    }
  }

  lemma TakeBlockInv(h: Heap, i: nat, need: nat, h': Heap, b: Block)
    requires Inv(h) && i < |h.free| && HEADER <= need <= h.free[i].size && (h', b) == TakeBlock(h, i, need)
    ensures Inv(h') && h'.live == h.live + [b] && h'.pages == h.pages
    ensures b.addr == h.free[i].addr && need <= b.size < need + HEADER + 8
    ensures b == h.free[i] || h.free[i].size - b.size >= HEADER + 8
    ensures forall x :: Holds(h.free, x) <==> Holds(h'.free, x) || b.Has(x)
  {
    TakeFits(h.free, i, need, b, h'.free);
    TotalConcat(h.live, [b]);
    TotalFew(b, b);
    forall x
      ensures Holds(h.free, x) <==> Holds(h'.free, x) || b.Has(x)
      ensures Holds(h'.pages, x) <==> Holds(h'.free, x) || Holds(h'.live, x)
    {
      TakeHolds(h.free, i, need, x);
      WithoutHolds(h'.live, |h.live|, x);
      assert Without(h'.live, |h.live|) == h.live;
    }
    forall j | 0 <= j < |h.live|
      ensures AllApart(h'.free, h.live[j]) && h.live[j].Apart(b)
    {
      assert LiveOk(h, j);
      TakeApart(h.free, i, need, h.live[j]);
    }
    AddLive(h, h', b);
  }

  /** A block of fresh pages joins the live blocks. */
  lemma GrowInv(h: Heap, b: Block)
    requires Inv(h) && AllApart(h.pages, b) && b.addr > 0 && b.size >= HEADER
    ensures Inv(Grow(h, b))
  {
    var h' := Grow(h, b);
    TotalFew(b, b);
    TotalConcat(h.live, [b]);
    TotalConcat(h.pages, [b]);
    forall x
      ensures Holds(h'.pages, x) <==> Holds(h'.free, x) || Holds(h'.live, x)
    {
      WithoutHolds(h'.live, |h.live|, x);
      WithoutHolds(h'.pages, |h.pages|, x);
      assert Without(h'.live, |h.live|) == h.live && Without(h'.pages, |h.pages|) == h.pages;
    }
    PagesApart(h, b);
    forall j | 0 <= j < |h.live|
      ensures AllApart(h'.free, h.live[j])
    {
      assert LiveOk(h, j);
    }
    AddLive(h, h', b);
  }

  /** What is apart from the pages is apart from every block. */
  lemma PagesApart(h: Heap, b: Block)
    requires Inv(h) && AllApart(h.pages, b) && b.size >= HEADER
    ensures AllApart(h.free, b) && AllApart(h.live, b)
  {
    forall i | 0 <= i < |h.free|
      ensures h.free[i].Apart(b)
    {
      forall x | h.free[i].Has(x)
        ensures !b.Has(x)
      {
        assert Holds(h.free, x);
      }
      ApartByPoints(h.free[i], b);
    }
    forall i | 0 <= i < |h.live|
      ensures h.live[i].Apart(b)
    {
      assert LiveOk(h, i);
      forall x | h.live[i].Has(x)
        ensures !b.Has(x)
      {
        assert Holds(h.live, x);
      }
      ApartByPoints(h.live[i], b);
    }
  }

  /** A live block may be cut in two. */
  lemma CutInv(h: Heap, need: nat)
    requires Inv(h) && h.live != []
    requires var last := h.live[|h.live| - 1]; HEADER <= need && need + HEADER <= last.size
    ensures Inv(Cut(h, need))
  {
    var n := |h.live| - 1;
    var last := h.live[n];
    var b, rest := Block(last.addr, need), Block(last.addr + need, last.size - need);
    var h' := Cut(h, need);
    assert LiveOk(h, n);
    assert h.live == h.live[..n] + [last];
    TotalConcat(h.live[..n], [last]);
    TotalConcat(h.live[..n], [b, rest]);
    TotalFew(b, rest);
    forall x
      ensures Holds(h'.live, x) <==> Holds(h.live, x)
    {
      HoldsConcat(h.live[..n], [last], x);
      HoldsConcat(h.live[..n], [b, rest], x);
      assert [b, rest][0] == b && [b, rest][1] == rest && [last][0] == last;
    }
    forall j | 0 <= j < |h'.live|
      ensures LiveOk(h', j)
    {
      CutLive(h, need, j);
    }
  }

  lemma CutLive(h: Heap, need: nat, j: nat)
    requires Inv(h) && h.live != []
    requires var last := h.live[|h.live| - 1]; HEADER <= need && need + HEADER <= last.size
    requires j <= |h.live|
    ensures LiveOk(Cut(h, need), j)
  {
    var n := |h.live| - 1;
    assert LiveOk(h, n);
    if j < n {
      assert LiveOk(h, j);
    } else {
      forall i | 0 <= i < |h.free|
        ensures h.free[i].Apart(Cut(h, need).live[j])
      {
        assert h.free[i].Apart(h.live[n]);
      }
      forall i | 0 <= i < j
        ensures Cut(h, need).live[i].Apart(Cut(h, need).live[j])
      {
        assert i < n ==> h.live[i].Apart(h.live[n]);
      }
    }
  }

  lemma TakePagesInv(h: Heap, need: nat, run: nat, page: nat)
    requires Inv(h) && HEADER <= need <= run && page > 0 && AllApart(h.pages, Block(page, run))
    ensures var (h', b) := TakePages(h, need, run, page);
            && Inv(h') && h'.live == h.live + [b] && h'.pages == h.pages + [Block(page, run)]
            && b.addr == page && need <= b.size <= need + HEADER + 8
            && (b.size == run || run - b.size > HEADER + 8)
            && forall x :: Holds(h'.free, x) <==> Holds(h.free, x) || b.End() <= x < page + run
  {
    var h1 := Grow(h, Block(page, run));
    GrowInv(h, Block(page, run));
    if run - need > HEADER + 8 {
      CutInv(h1, need);
      var h2 := Cut(h1, need);
      assert h1.live[..|h.live|] == h.live;
      ReleaseInv(h2, |h.live| + 1);
      assert Without(h2.live, |h.live| + 1) == h.live + [Block(page, need)];
      assert h2.live[|h.live| + 1] == Block(page + need, run - need);
    }
  }

  /** Some free block has `need` bytes. */
  predicate Fits(free: seq<Block>, need: nat) {
    exists i :: 0 <= i < |free| && free[i].size >= need
  }

  /** Block `b` is cut from the front of the first free block that is large enough, and only it leaves the list. */
  ghost predicate FromList(h: Heap, h': Heap, b: Block, need: nat) {
    && h'.pages == h.pages
    && (exists i :: 0 <= i < |h.free| && h.free[i].size >= need && h.free[i].addr == b.addr
          && (b == h.free[i] || h.free[i].size - b.size >= HEADER + 8)
          && forall j :: 0 <= j < i ==> h.free[j].size < need)
    && forall x :: Holds(h.free, x) <==> Holds(h'.free, x) || b.Has(x)
  }

  /** Block `b` is cut from the front of a new run of pages, and all behind it joins the list. */
  ghost predicate FromPages(h: Heap, h': Heap, b: Block, pages: Block) {
    && h'.pages == h.pages + [pages] && b.addr == pages.addr && (b == pages || pages.size - b.size > HEADER + 8)
    && forall x :: Holds(h'.free, x) <==> Holds(h.free, x) || b.End() <= x < pages.End()
  }

  /** kmalloc keeps the heap whole; what it returns is a live block with room for the request and for at most
      a header and 8 bytes more, from the first free block that will do or else from new pages. It panics if there is
      neither. */
  lemma AcquireInv(h: Heap, pageSize: nat, request: nat, page: nat)
    requires Inv(h) && Legal(h, pageSize, request, page)
    ensures var (h', b) := Acquire(h, pageSize, request, page);
            var need := BlockSize(request);
            && Inv(h')
            && (b == None <==> !Fits(h.free, need) && page == 0) && (b == None ==> h' == h)
            && (b.Some? ==> h'.live == h.live + [b.value] && need <= b.value.size <= need + HEADER + 8)
            && (Fits(h.free, need) ==> FromList(h, h', b.value, need))
            && (!Fits(h.free, need) && page != 0 ==>
                  FromPages(h, h', b.value, Block(page, AlignUp(need, pageSize))))
            && (b.Some? && request <= WORD32 - WORD_SIZE - HEADER ==>
                  request + HEADER <= b.value.size < request + WORD_SIZE + 2 * HEADER + 8)
  {
    BlockSizeIff(request);
    var need := BlockSize(request);
    RunSizeIff(need, pageSize);
    var i := FirstFit(h.free, need);
    if i < |h.free| {
      var (h', b) := TakeBlock(h, i, need);
      TakeBlockInv(h, i, need, h', b);
    } else if page != 0 {
      TakePagesInv(h, need, AlignUp(need, pageSize), page);
    }
  }

  // ----- every run -----

  datatype Op = Malloc(request: nat, page: nat) | Free(j: nat)

  predicate OpLegal(h: Heap, pageSize: nat, op: Op) {
    match op
    case Malloc(request, page) => Legal(h, pageSize, request, page)
    case Free(j) => j < |h.live|
  }

  function Step(h: Heap, pageSize: nat, op: Op): Heap
    requires OpLegal(h, pageSize, op)
  {
    match op
    case Malloc(request, page) => Acquire(h, pageSize, request, page).0
    case Free(j) => Release(h, j)
  }

  predicate Runs(h: Heap, pageSize: nat, ops: seq<Op>)
    decreases |ops|
  {
    ops == [] || (OpLegal(h, pageSize, ops[0]) && Runs(Step(h, pageSize, ops[0]), pageSize, ops[1..]))
  }

  function After(h: Heap, pageSize: nat, ops: seq<Op>): Heap
    requires Runs(h, pageSize, ops)
    decreases |ops|
  {
    if ops == [] then h else After(Step(h, pageSize, ops[0]), pageSize, ops[1..])
  }

  /** Any run of kmalloc and kmfree leaves free and live blocks tiling the pages, ordered, unmerged blocks
      apart, and counted right. */
  lemma {:induction false} RunInv(h: Heap, pageSize: nat, ops: seq<Op>)
    requires Inv(h) && Runs(h, pageSize, ops)
    ensures Inv(After(h, pageSize, ops))
    decreases |ops|
  {
    if ops != [] {
      match ops[0] {
        case Malloc(request, page) => AcquireInv(h, pageSize, request, page);
        case Free(j) => ReleaseInv(h, j);
      }
      RunInv(Step(h, pageSize, ops[0]), pageSize, ops[1..]);
    }
  }

  lemma EveryRunInv(pageSize: nat, ops: seq<Op>)
    requires Runs(EMPTY, pageSize, ops)
    ensures Inv(After(EMPTY, pageSize, ops))
  {
    RunInv(EMPTY, pageSize, ops);
  }

  // ----- the list as it lies in memory -----

  /** struct block, as found at a block's address. */
  datatype Header = Header(size: nat, next: nat)

  function AddrAt(free: seq<Block>, i: nat): nat {
    if i < |free| then free[i].addr else 0
  }

  ghost predicate LinkAt(hdr: map<nat, Header>, free: seq<Block>, i: nat)
    requires i < |free|
  {
    free[i].addr in hdr && hdr[free[i].addr] == Header(free[i].size, AddrAt(free, i + 1))
  }

  /** The headers in memory chain the free blocks. */
  ghost predicate Chained(hdr: map<nat, Header>, head: nat, free: seq<Block>) {
    head == AddrAt(free, 0) && forall i :: 0 <= i < |free| ==> LinkAt(hdr, free, i)
  }

  /** A live block is marked by a null link. */
  ghost predicate Unlinked(hdr: map<nat, Header>, live: seq<Block>) {
    forall j :: 0 <= j < |live| ==> live[j].addr in hdr && hdr[live[j].addr] == Header(live[j].size, 0)
  }

  /** Blocks that are in the heap at once have their headers at different, nonzero addresses. */
  ghost predicate Separate(free: seq<Block>, live: seq<Block>) {
    && (forall i :: 0 <= i < |free| ==> free[i].addr > 0)
    && (forall j :: 0 <= j < |live| ==> live[j].addr > 0)
    && (forall i, j :: 0 <= i < j < |free| ==> free[i].addr != free[j].addr)
    && (forall i, j :: 0 <= i < |free| && 0 <= j < |live| ==> free[i].addr != live[j].addr)
    && (forall i, j :: 0 <= i < j < |live| ==> live[i].addr != live[j].addr)
  }

  lemma InvSeparate(h: Heap)
    requires Inv(h)
    ensures Separate(h.free, h.live)
  {
    forall i, j | 0 <= i < |h.free| && 0 <= j < |h.live|
      ensures h.free[i].addr != h.live[j].addr && h.live[j].addr > 0
    {
      assert LiveOk(h, j) && h.free[i].Apart(h.live[j]);
    }
    forall i, j | 0 <= i < j < |h.live|
      ensures h.live[i].addr != h.live[j].addr
    {
      assert LiveOk(h, i) && LiveOk(h, j);
    }
    forall j | 0 <= j < |h.live|
      ensures h.live[j].addr > 0
    {
      assert LiveOk(h, j);
    }
  }

  /** Relinking around a spliced block keeps the chain. */
  lemma ChainedSplice(hdr: map<nat, Header>, head: nat, hdr': map<nat, Header>, head': nat, free: seq<Block>, k: nat,
      n: nat, m: Block)
    requires Chained(hdr, head, free) && k + n <= |free|
    requires m.addr in hdr' && hdr'[m.addr] == Header(m.size, AddrAt(free, k + n))
    requires if k == 0 then head' == m.addr else head' == head
    requires k > 0 ==> free[k - 1].addr in hdr' && hdr'[free[k - 1].addr] == Header(free[k - 1].size, m.addr)
    requires forall i :: 0 <= i < |free| && (i < k - 1 || k + n <= i) ==> LinkAt(hdr', free, i)
    ensures Chained(hdr', head', Splice(free, k, n, m))
  {
    var r := Splice(free, k, n, m);
    forall i | 0 <= i < |r|
      ensures LinkAt(hdr', r, i)
    {
      if i < k {
        assert r[i] == free[i] && (i + 1 < k ==> r[i + 1] == free[i + 1]);
        assert i < k - 1 ==> LinkAt(hdr', free, i);
      } else if i > k {
        assert r[i] == free[i + n - 1] && (i + 1 < |r| ==> r[i + 1] == free[i + n]);
        assert LinkAt(hdr', free, i + n - 1);
      } else {
        assert i + 1 < |r| ==> r[i + 1] == free[k + n];
      }
    }
  }

  /** kmfree, when the block at `cur` ends where the freed one starts. */
  function MergeHeaders(hdr: map<nat, Header>, cur: nat, size: nat): map<nat, Header>
    requires cur in hdr
  {
    var hdr1 := hdr[cur := Header(hdr[cur].size + size, hdr[cur].next)];
    var next := hdr1[cur].next;
    if cur + hdr1[cur].size == next && next in hdr1 then
      hdr1[cur := Header(hdr1[cur].size + hdr1[next].size, hdr1[next].next)]
    else hdr1
  }

  /** kmfree, when the freed block goes between `prev` and `cur`, either of which may be null. */
  function InsertHeaders(hdr: map<nat, Header>, prev: nat, block: nat, cur: nat): map<nat, Header>
    requires block in hdr
  {
    var hdr1 := if prev != 0 && prev in hdr then hdr[prev := hdr[prev].(next := block)] else hdr;
    var hdr2 := hdr1[block := hdr1[block].(next := cur)];
    if cur != 0 && cur in hdr2 && block + hdr2[block].size == cur then
      hdr2[block := Header(hdr2[block].size + hdr2[cur].size, hdr2[cur].next)]
    else hdr2
  }

  lemma MergeChains(hdr: map<nat, Header>, head: nat, free: seq<Block>, live: seq<Block>, b: Block, k: nat,
      hdr': map<nat, Header>)
    requires Chained(hdr, head, free) && Separate(free, live) && k < |free| && free[k].End() == b.addr
    requires LinkAt(hdr, free, k)
    requires hdr' == MergeHeaders(hdr, free[k].addr, b.size)
    ensures var (n, m) := Merge(free, k, b); Chained(hdr', head, Splice(free, k, n, m))
  {
    var (n, m) := Merge(free, k, b);
    assert LinkAt(hdr, free, k) && (k + 1 < |free| ==> LinkAt(hdr, free, k + 1))
           && (k > 0 ==> LinkAt(hdr, free, k - 1));
    forall i | 0 <= i < |free| && (i < k - 1 || k + n <= i)
      ensures LinkAt(hdr', free, i)
    {
      assert LinkAt(hdr, free, i);
    }
    ChainedSplice(hdr, head, hdr', head, free, k, n, m);
  }

  lemma InsertChains(hdr: map<nat, Header>, head: nat, free: seq<Block>, b: Block, k: nat, hdr': map<nat, Header>,
      head': nat)
    requires Chained(hdr, head, free) && Separate(free, []) && b.addr > 0 && b.addr in hdr
    requires hdr[b.addr] == Header(b.size, 0)
    requires forall i :: 0 <= i < |free| ==> free[i].addr != b.addr
    requires k <= |free| && (k < |free| ==> free[k].End() != b.addr)
    requires hdr' == InsertHeaders(hdr, if k == 0 then 0 else free[k - 1].addr, b.addr, AddrAt(free, k))
    requires head' == if k == 0 then b.addr else head
    ensures var (n, m) := Merge(free, k, b); Chained(hdr', head', Splice(free, k, n, m))
  {
    var (n, m) := Merge(free, k, b);
    assert k < |free| ==> LinkAt(hdr, free, k);
    assert k > 0 ==> LinkAt(hdr, free, k - 1);
    forall i | 0 <= i < |free| && (i < k - 1 || k + n <= i)
      ensures LinkAt(hdr', free, i)
    {
      assert LinkAt(hdr, free, i);
    }
    ChainedSplice(hdr, head, hdr', head', free, k, n, m);
  }

  /** Writing the headers of free blocks, or of live block `j`, leaves the other live headers alone. */
  lemma UnlinkedKept(hdr: map<nat, Header>, hdr': map<nat, Header>, free: seq<Block>, live: seq<Block>, j: nat)
    requires Unlinked(hdr, live) && Separate(free, live) && j < |live|
    requires forall l :: 0 <= l < |live| && l != j ==> live[l].addr in hdr' && hdr'[live[l].addr] == hdr[live[l].addr]
    ensures Unlinked(hdr', Without(live, j))
  {
    var r := Without(live, j);
    forall l | 0 <= l < |r|
      ensures r[l].addr in hdr' && hdr'[r[l].addr] == Header(r[l].size, 0)
    {
      assert r[l] == live[if l < j then l else l + 1];
    }
  }

  /** kmalloc from the free block at `cur`: the new headers, and what now follows `prev`. */
  function TakeHeaders(hdr: map<nat, Header>, prev: nat, cur: nat, need: nat): (map<nat, Header>, nat)
    requires cur in hdr && hdr[cur].size >= need
  {
    var size, next := hdr[cur].size, hdr[cur].next;
    var nextFree := if size >= need + HEADER + 8 then cur + need else next;
    var hdr1 := if size >= need + HEADER + 8 then hdr[nextFree := Header(size - need, next)][cur := Header(need, 0)]
      else hdr[cur := Header(size, 0)];
    (if prev != 0 && prev in hdr1 then hdr1[prev := hdr1[prev].(next := nextFree)] else hdr1, nextFree)
  }

  lemma ChainedWithout(hdr: map<nat, Header>, head: nat, hdr': map<nat, Header>, head': nat, free: seq<Block>, i: nat)
    requires Chained(hdr, head, free) && i < |free|
    requires head' == if i == 0 then AddrAt(free, 1) else head
    requires i > 0 ==>
             free[i - 1].addr in hdr' && hdr'[free[i - 1].addr] == Header(free[i - 1].size, AddrAt(free, i + 1))
    requires forall j :: 0 <= j < |free| && j != i - 1 && j != i ==> LinkAt(hdr', free, j)
    ensures Chained(hdr', head', Without(free, i))
  {
    var r := Without(free, i);
    forall j | 0 <= j < |r|
      ensures LinkAt(hdr', r, j)
    {
      var j' := if j < i then j else j + 1;
      assert r[j] == free[j'] && (j + 1 < |r| ==> r[j + 1] == free[if j + 1 < i then j + 1 else j + 2]);
      assert j' != i - 1 ==> LinkAt(hdr', free, j');
    }
  }

  lemma SplitChains(hdr: map<nat, Header>, head: nat, free: seq<Block>, i: nat, need: nat, hdr': map<nat, Header>,
      head': nat)
    requires Chained(hdr, head, free) && Ordered(free) && i < |free| && HEADER <= need
    requires need + HEADER + 8 <= free[i].size && LinkAt(hdr, free, i)
    requires var prev := if i == 0 then 0 else free[i - 1].addr; hdr' == TakeHeaders(hdr, prev, free[i].addr, need).0
    requires head' == if i == 0 then free[i].addr + need else head
    ensures Chained(hdr', head', free[i := Block(free[i].addr + need, free[i].size - need)])
    ensures free[i].addr in hdr' && hdr'[free[i].addr] == Header(need, 0)
  {
    var f := free[i];
    var rest := Block(f.addr + need, f.size - need);
    assert Splice(free, i, 1, rest) == free[i := rest];
    assert LinkAt(hdr, free, i);
    assert i > 0 ==> LinkAt(hdr, free, i - 1) && free[i - 1].End() < f.addr;
    forall j | 0 <= j < |free| && (j < i - 1 || i + 1 <= j)
      ensures LinkAt(hdr', free, j)
    {
      assert LinkAt(hdr, free, j);
      assert j < i - 1 ==> free[j].End() < free[i - 1].addr;
      assert j > i ==> f.End() < free[j].addr;
    }
    ChainedSplice(hdr, head, hdr', head', free, i, 1, rest);
  }

  lemma WholeChains(hdr: map<nat, Header>, head: nat, free: seq<Block>, i: nat, need: nat, hdr': map<nat, Header>,
      head': nat)
    requires Chained(hdr, head, free) && Ordered(free) && i < |free| && need <= free[i].size < need + HEADER + 8
    requires LinkAt(hdr, free, i)
    requires var prev := if i == 0 then 0 else free[i - 1].addr; hdr' == TakeHeaders(hdr, prev, free[i].addr, need).0
    requires head' == if i == 0 then AddrAt(free, 1) else head
    ensures Chained(hdr', head', Without(free, i))
    ensures free[i].addr in hdr' && hdr'[free[i].addr] == Header(free[i].size, 0)
  {
    var f := free[i];
    assert LinkAt(hdr, free, i);
    assert i > 0 ==> LinkAt(hdr, free, i - 1) && free[i - 1].End() < f.addr;
    forall j | 0 <= j < |free| && j != i - 1 && j != i
      ensures LinkAt(hdr', free, j)
    {
      assert LinkAt(hdr, free, j);
      assert j < i - 1 ==> free[j].End() < free[i - 1].addr;
      assert j > i ==> f.End() < free[j].addr;
    }
    ChainedWithout(hdr, head, hdr', head', free, i);
  }

  /** kmfree's writes, when it merges, leave the headers of the heap without live block `j`; ... */
  lemma MergeLinks(hdr: map<nat, Header>, head: nat, free: seq<Block>, live: seq<Block>, j: nat, k: nat,
      hdr': map<nat, Header>)
    requires Separate(free, live) && Chained(hdr, head, free) && Unlinked(hdr, live) && j < |live|
    requires k == Spot(free, live[j].addr)
    requires k < |free| && LinkAt(hdr, free, k) && free[k].End() == live[j].addr
    requires hdr' == MergeHeaders(hdr, free[k].addr, live[j].size)
    ensures Chained(hdr', head, Insert(free, live[j])) && Unlinked(hdr', Without(live, j))
  {
    MergeChains(hdr, head, free, live, live[j], k, hdr');
    assert forall l :: 0 <= l < |live| ==> free[k].addr != live[l].addr;
    UnlinkedKept(hdr, hdr', free, live, j);
  }

  /** ... and so they do when it inserts. */
  lemma InsertLinks(hdr: map<nat, Header>, head: nat, free: seq<Block>, live: seq<Block>, j: nat, k: nat,
      hdr': map<nat, Header>, head': nat)
    requires Separate(free, live) && Chained(hdr, head, free) && Unlinked(hdr, live) && j < |live|
    requires k == Spot(free, live[j].addr)
    requires k < |free| ==> free[k].End() != live[j].addr
    requires hdr' == InsertHeaders(hdr, if k == 0 then 0 else free[k - 1].addr, live[j].addr, AddrAt(free, k))
             && head' == if k == 0 then live[j].addr else head
    ensures Chained(hdr', head', Insert(free, live[j])) && Unlinked(hdr', Without(live, j))
  {
    InsertChains(hdr, head, free, live[j], k, hdr', head');
    assert k > 0 ==> forall l :: 0 <= l < |live| ==> free[k - 1].addr != live[l].addr;
    assert forall l :: 0 <= l < |live| && l != j ==> live[l].addr != live[j].addr;
    UnlinkedKept(hdr, hdr', free, live, j);
  }

  /** kmfree's walk has reached its spot. */
  lemma SpotReached(free: seq<Block>, addr: nat, k: nat)
    requires k <= |free| && (k < |free| ==> free[k].End() == addr || free[k].addr >= addr)
    requires forall j :: 0 <= j < k ==> free[j].End() != addr && free[j].addr < addr
    ensures Spot(free, addr) == k
  {
  }

  /** kmalloc's writes leave the headers of the heap with free block `i` handed out. */
  lemma TakeLinks(hdr: map<nat, Header>, head: nat, free: seq<Block>, live: seq<Block>, i: nat, need: nat,
      hdr': map<nat, Header>, head': nat)
    requires Chained(hdr, head, free) && Unlinked(hdr, live) && Ordered(free) && Separate(free, live)
    requires i < |free| && HEADER <= need <= free[i].size && LinkAt(hdr, free, i)
    requires forall j :: 0 <= j < |live| ==> free[i].Apart(live[j]) && live[j].size > 0
    requires var (hdr1, next) := TakeHeaders(hdr, if i == 0 then 0 else free[i - 1].addr, free[i].addr, need);
             hdr' == hdr1 && head' == if i == 0 then next else head
    ensures Chained(hdr', head', Take(free, i, need).1) && Unlinked(hdr', live + [Take(free, i, need).0])
  {
    if free[i].size >= need + HEADER + 8 {
      SplitChains(hdr, head, free, i, need, hdr', head');
    } else {
      WholeChains(hdr, head, free, i, need, hdr', head');
    }
    forall j | 0 <= j < |live|
      ensures live[j].addr in hdr' && hdr'[live[j].addr] == Header(live[j].size, 0)
    {
      assert free[i].Apart(live[j]);
      assert i > 0 ==> free[i - 1].addr != live[j].addr;
    }
  }

  /** A header written away from the blocks of the heap disturbs none of them. */
  lemma LinksKept(hdr: map<nat, Header>, hdr': map<nat, Header>, head: nat, free: seq<Block>, live: seq<Block>)
    requires Chained(hdr, head, free) && Unlinked(hdr, live)
    requires forall i :: 0 <= i < |free| ==>
             free[i].addr in hdr && free[i].addr in hdr' && hdr'[free[i].addr] == hdr[free[i].addr]
    requires forall j :: 0 <= j < |live| ==> live[j].addr in hdr' && hdr'[live[j].addr] == hdr[live[j].addr]
    ensures Chained(hdr', head, free) && Unlinked(hdr', live)
  {
    forall i | 0 <= i < |free|
      ensures LinkAt(hdr', free, i)
    {
      assert LinkAt(hdr, free, i);
    }
  }

  lemma GrowLinks(hdr: map<nat, Header>, head: nat, h: Heap, b: Block)
    requires Inv(h) && Chained(hdr, head, h.free) && Unlinked(hdr, h.live) && b.size >= HEADER && AllApart(h.pages, b)
    ensures var hdr' := hdr[b.addr := Header(b.size, 0)]; Chained(hdr', head, h.free) && Unlinked(hdr', h.live + [b])
  {
    PagesApart(h, b);
    forall i | 0 <= i < |h.free|
      ensures h.free[i].addr in hdr && h.free[i].addr != b.addr
    {
      assert h.free[i].Apart(b) && LinkAt(hdr, h.free, i);
    }
    forall j | 0 <= j < |h.live|
      ensures h.live[j].addr != b.addr
    {
      assert h.live[j].Apart(b) && LiveOk(h, j);
    }
    LinksKept(hdr, hdr[b.addr := Header(b.size, 0)], head, h.free, h.live);
  }

  lemma CutLinks(hdr: map<nat, Header>, head: nat, free: seq<Block>, live: seq<Block>, last: Block, need: nat)
    requires Chained(hdr, head, free) && Unlinked(hdr, live + [last]) && need <= last.size
    requires Separate(free, live + [Block(last.addr, need), Block(last.addr + need, last.size - need)])
    ensures var hdr' := hdr[last.addr := Header(need, 0)][last.addr + need := Header(last.size - need, 0)];
            Chained(hdr', head, free) && Unlinked(hdr',
              live + [Block(last.addr, need), Block(last.addr + need, last.size - need)])
  {
    var hdr' := hdr[last.addr := Header(need, 0)][last.addr + need := Header(last.size - need, 0)];
    var live' := live + [Block(last.addr, need), Block(last.addr + need, last.size - need)];
    var n := |live|;
    assert live'[n].addr == last.addr && live'[n + 1].addr == last.addr + need;
    forall i | 0 <= i < |free|
      ensures free[i].addr in hdr && free[i].addr != live'[n].addr && free[i].addr != live'[n + 1].addr
    {
      assert LinkAt(hdr, free, i);
    }
    forall j | 0 <= j < |live|
      ensures live[j].addr in hdr && live[j].addr != live'[n].addr && live[j].addr != live'[n + 1].addr
      ensures hdr[live[j].addr] == Header(live[j].size, 0)
    {
      assert live'[j] == live[j] && (live + [last])[j] == live[j];
    }
    LinksKept(hdr, hdr', head, free, live);
  }

  class KernelHeap {
    var hdr: map<nat, Header>
    var freeBlocks: nat
    var totalBytes: int
    var bytesFree: int
    var bytesAllocated: int
    ghost var h: Heap

    ghost predicate Valid()
      reads this
    {
      && Inv(h) && Chained(hdr, freeBlocks, h.free) && Unlinked(hdr, h.live)
      && totalBytes == h.totalBytes && bytesFree == h.bytesFree && bytesAllocated == h.bytesAllocated
    }

    constructor ()
      ensures Valid() && h == EMPTY
    {
      hdr, freeBlocks, totalBytes, bytesFree, bytesAllocated := map[], 0, 0, 0, 0;
      h := EMPTY;
    }

    /**
     kmfree's walk: the block to merge with or insert before, and the one in
     front of it. It panics exactly at a block that another in the list links to.
     */
    method Walk(block: nat, ghost free: seq<Block>) returns (panicked: bool, prev: nat, cur: nat, ghost k: nat)
      requires Chained(hdr, freeBlocks, free) && Separate(free, []) && block != 0
      ensures panicked ==> exists i :: 1 <= i < |free| && free[i].addr == block
      ensures !panicked && Ordered(free) ==> forall i :: 1 <= i < |free| ==> free[i].addr != block
      ensures !panicked ==> k == Spot(free, block) && cur == AddrAt(free, k) && prev == if k == 0 then 0
              else free[k - 1].addr
    {
      prev, cur, k := 0, freeBlocks, 0;
      while cur != 0
        invariant 0 <= k <= |free| && cur == AddrAt(free, k) && prev == if k == 0 then 0 else free[k - 1].addr
        invariant forall i :: 0 <= i < k ==> free[i].End() != block && free[i].addr < block
        invariant forall i :: 1 <= i <= k && i < |free| ==> free[i].addr != block
        decreases |free| - k
      {
        assert LinkAt(hdr, free, k);
        if hdr[cur].next == block {
          assert free[k + 1].addr == block;
          return true, prev, cur, k;
        }
        if cur + hdr[cur].size == block || cur >= block {
          SpotReached(free, block, k);
          return false, prev, cur, k;
        }
        prev, cur, k := cur, hdr[cur].next, k + 1;
      }
      SpotReached(free, block, k);
      return false, prev, cur, k;
    }

    /** Add `size` bytes to the block at `cur`, and the block after it if the two now touch. */
    method MergeBlock(cur: nat, size: nat)
      requires cur in hdr && (hdr[cur].next != 0 ==> hdr[cur].next in hdr)
      modifies this`hdr
      ensures hdr == MergeHeaders(old(hdr), cur, size)
    {
      hdr := hdr[cur := Header(hdr[cur].size + size, hdr[cur].next)];
      var next := hdr[cur].next;
      if next != 0 && cur + hdr[cur].size == next {
        hdr := hdr[cur := Header(hdr[cur].size + hdr[next].size, hdr[next].next)];
      }
    }

    /** Link the block at `block` between `prev` and `cur`, and add the latter to it if they touch. */
    method LinkBlock(prev: nat, block: nat, cur: nat)
      requires block in hdr && (prev != 0 ==> prev in hdr) && (cur != 0 ==> cur in hdr)
      modifies this`hdr, this`freeBlocks
      ensures hdr == InsertHeaders(old(hdr), prev, block, cur)
      ensures freeBlocks == if prev == 0 then block else old(freeBlocks)
    {
      if prev != 0 {
        hdr := hdr[prev := hdr[prev].(next := block)];
      } else {
        freeBlocks := block;
      }
      hdr := hdr[block := hdr[block].(next := cur)];
      if cur != 0 && block + hdr[block].size == cur {
        hdr := hdr[block := Header(hdr[block].size + hdr[cur].size, hdr[cur].next)];
      }
    }

    /** The list operations of kmfree. */
    method Unlive(block: nat, ghost free: seq<Block>, ghost live: seq<Block>, ghost j: nat) returns (panicked: bool)
      requires Chained(hdr, freeBlocks, free) && Unlinked(hdr, live) && Separate(free, live) && j < |live|
      requires live[j].addr == block
      modifies this`hdr, this`freeBlocks
      ensures !panicked && Chained(hdr, freeBlocks, Insert(free, live[j])) && Unlinked(hdr, Without(live, j))
    {
      if hdr[block].next != 0 {
        return true;
      }
      var prev, cur;
      ghost var k;
      panicked, prev, cur, k := Walk(block, free);
      if panicked {
        return true;
      }
      ghost var hdr0, head0 := hdr, freeBlocks;
      assert (cur != 0 ==> LinkAt(hdr, free, k)) && (prev != 0 ==> LinkAt(hdr, free, k - 1));
      assert k + 1 < |free| ==> LinkAt(hdr, free, k + 1);
      if cur != 0 && cur + hdr[cur].size == block {
        MergeBlock(cur, hdr[block].size);
        MergeLinks(hdr0, head0, free, live, j, k, hdr);
      } else {
        LinkBlock(prev, block, cur);
        InsertLinks(hdr0, head0, free, live, j, k, hdr, freeBlocks);
      }
    }

    /** kmfree of the block at `block`, live block number `j`. */
    method Kmfree(block: nat, ghost j: nat) returns (panicked: bool)
      requires Valid() && j < |h.live| && h.live[j].addr == block
      modifies this
      ensures !panicked && Valid() && h == Release(old(h), j)
    {
      InvSeparate(h);
      var size := hdr[block].size;
      panicked := Unlive(block, h.free, h.live, j);
      bytesFree, bytesAllocated := bytesFree + size, bytesAllocated - size;
      ReleaseInv(h, j);
      h := Release(h, j);
    }

    /** The checks of kmfree on a block that is free already: that is noticed unless it is the only one. */
    method FreedAgain(block: nat, ghost i: nat) returns (panicked: bool)
      requires Valid() && i < |h.free| && h.free[i].addr == block
      ensures panicked <==> |h.free| > 1
    {
      InvSeparate(h);
      assert LinkAt(hdr, h.free, i);
      if hdr[block].next != 0 {
        return true;
      }
      var prev, cur;
      ghost var k;
      panicked, prev, cur, k := Walk(block, h.free);
    }

    /** kmalloc's search: the first block that is large enough, and the one in front of it. */
    method Search(need: nat, ghost free: seq<Block>) returns (prev: nat, cur: nat, ghost i: nat)
      requires Chained(hdr, freeBlocks, free) && Separate(free, [])
      ensures i == FirstFit(free, need) && cur == AddrAt(free, i) && prev == if i == 0 then 0 else free[i - 1].addr
    {
      prev, cur, i := 0, freeBlocks, 0;
      while cur != 0
        invariant 0 <= i <= |free| && cur == AddrAt(free, i) && prev == if i == 0 then 0 else free[i - 1].addr
        invariant forall j :: 0 <= j < i ==> free[j].size < need
        decreases |free| - i
      {
        assert LinkAt(hdr, free, i);
        if hdr[cur].size >= need {
          return;
        }
        prev, cur, i := cur, hdr[cur].next, i + 1;
      }
    }

    /** The list operations of kmalloc from the free block at `cur`, which is cut if what remains is worth a block. */
    method Unfree(prev: nat, cur: nat, need: nat, ghost free: seq<Block>, ghost live: seq<Block>, ghost i: nat)
      requires Chained(hdr, freeBlocks, free) && Unlinked(hdr, live) && Ordered(free) && Separate(free, live)
      requires i < |free| && cur == free[i].addr && prev == (if i == 0 then 0 else free[i - 1].addr)
      requires HEADER <= need <= free[i].size
      requires forall j :: 0 <= j < |live| ==> free[i].Apart(live[j]) && live[j].size > 0
      modifies this`hdr, this`freeBlocks
      ensures Chained(hdr, freeBlocks, Take(free, i, need).1) && Unlinked(hdr, live + [Take(free, i, need).0])
    {
      assert LinkAt(hdr, free, i) && (i > 0 ==> LinkAt(hdr, free, i - 1));
      ghost var hdr0, head0 := hdr, freeBlocks;
      var size, nextFree := hdr[cur].size, hdr[cur].next;
      if size >= need + HEADER + 8 {
        nextFree := cur + need;
        hdr := hdr[nextFree := Header(size - need, hdr[cur].next)];
        hdr := hdr[cur := Header(need, hdr[cur].next)];
      }
      hdr := hdr[cur := hdr[cur].(next := 0)];
      if prev != 0 {
        hdr := hdr[prev := hdr[prev].(next := nextFree)];
      } else {
        freeBlocks := nextFree;
      }
      TakeLinks(hdr0, head0, free, live, i, need, hdr, freeBlocks);
    }

    /** kmalloc from the free block at `cur`. */
    method TakeFrom(prev: nat, cur: nat, need: nat, ghost i: nat)
      requires Valid() && i < |h.free| && cur == h.free[i].addr && prev == if i == 0 then 0 else h.free[i - 1].addr
      requires HEADER <= need <= h.free[i].size
      modifies this
      ensures Valid() && h == TakeBlock(old(h), i, need).0
    {
      ghost var (h', b) := TakeBlock(h, i, need);
      TakeBlockInv(h, i, need, h', b);
      InvSeparate(h);
      forall j | 0 <= j < |h.live|
        ensures h.free[i].Apart(h.live[j]) && h.live[j].size > 0
      {
        assert LiveOk(h, j);
      }
      Unfree(prev, cur, need, h.free, h.live, i);
      assert h'.live[|h.live|] == b;
      bytesFree, bytesAllocated := bytesFree - hdr[cur].size, bytesAllocated + hdr[cur].size;
      h := h';
    }

    /** A run of fresh pages, as one live block. */
    method AddPages(page: nat, run: nat)
      requires Valid() && page > 0 && run >= HEADER && AllApart(h.pages, Block(page, run))
      modifies this
      ensures Valid() && h == Grow(old(h), Block(page, run))
    {
      GrowInv(h, Block(page, run));
      GrowLinks(hdr, freeBlocks, h, Block(page, run));
      hdr := hdr[page := Header(run, 0)];
      totalBytes, bytesAllocated := totalBytes + run, bytesAllocated + run;
      h := Grow(h, Block(page, run));
    }

    /** Cut the last live block in two, giving the second half a header of its own. */
    method CutLast(page: nat, need: nat, run: nat)
      requires Valid() && h.live != [] && h.live[|h.live| - 1] == Block(page, run) && HEADER <= need
      requires need + HEADER <= run
      modifies this
      ensures Valid() && h == Cut(old(h), need)
    {
      ghost var h', n := Cut(h, need), |h.live| - 1;
      CutInv(h, need);
      InvSeparate(h');
      assert h.live == h.live[..n] + [Block(page, run)];
      CutLinks(hdr, freeBlocks, h.free, h.live[..n], Block(page, run), need);
      hdr := hdr[page := Header(need, 0)];
      hdr := hdr[page + need := Header(run - need, 0)];
      h := h';
    }

    /** kmalloc from fresh pages; what is left over, if worth a block, goes through kmfree. */
    method TakeFresh(page: nat, need: nat, run: nat)
      requires Valid() && page > 0 && HEADER <= need <= run && AllApart(h.pages, Block(page, run))
      modifies this
      ensures Valid() && h == TakePages(old(h), need, run, page).0
    {
      AddPages(page, run);
      if run - need > HEADER + 8 {
        CutLast(page, need, run);
        var panicked := Kmfree(page + need, |h.live| - 1);
      }
    }

    /** kmalloc; `page` is what the page allocator returns for the run it is asked for, 0 if it has none. */
    method Kmalloc(pageSize: nat, request: nat, page: nat) returns (block: Option<nat>)
      requires Valid() && Legal(h, pageSize, request, page)
      modifies this
      ensures Valid() && h == Acquire(old(h), pageSize, request, page).0
      ensures block == match Acquire(old(h), pageSize, request, page).1 case None => None case Some(b) => Some(b.addr)
    {
      InvSeparate(h);
      var need := BlockSize(request);
      RunSizeIff(need, pageSize);
      var prev, cur;
      ghost var i;
      prev, cur, i := Search(need, h.free);
      if cur != 0 {
        TakeFrom(prev, cur, need, i);
        return Some(cur);
      }
      if page == 0 {
        return None;
      }
      TakeFresh(page, need, AlignUp(need, pageSize));
      return Some(page);
    }
  }
}
