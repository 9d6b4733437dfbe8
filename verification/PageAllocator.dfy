/**
 * The physical page allocator (pages.c): a bitmap of pages in 16-bit words, searched first fit with whole full words
 * skipped, and a 16-bit reference count for each page.
 */
module PageAllocator {
  import opened Common
  import opened Flags

  const PER_WORD := 16
  const REFCOUNTS := 0x1_0000

  // ----- the flat view -----

  /** `bits` marks the pages in use, `refs` counts their references, `free` is the number kept of free pages. */
  datatype Pages = Pages(bits: seq<bool>, refs: seq<nat>, free: int)

  /** A page is marked exactly when something refers to it, and the number of free pages is right. */
  ghost predicate Inv(p: Pages) {
    && |p.refs| == |p.bits| && p.free == Free(p.bits)
    && forall k :: 0 <= k < |p.bits| ==> p.refs[k] < REFCOUNTS && (p.bits[k] <==> p.refs[k] > 0)
  }

  predicate RunClear(bits: seq<bool>, k: nat, n: nat) {
    k + n <= |bits| && forall i :: k <= i < k + n ==> !bits[i]
  }

  /** The first run of `n` clear flags from `i` on, or |bits|. */
  function FirstRun(bits: seq<bool>, n: nat, i: nat): (k: nat)
    requires i <= |bits|
    ensures i <= k <= |bits| && (k < |bits| ==> RunClear(bits, k, n))
    ensures forall j :: i <= j < k ==> !RunClear(bits, j, n)
    decreases |bits| - i
  {
    if i == |bits| || RunClear(bits, i, n) then i else FirstRun(bits, n, i + 1)
  }

  /** Pages [k, k + n) marked, with a reference each. */
  function Marked(bits: seq<bool>, k: nat, n: nat): (r: seq<bool>)
    requires k + n <= |bits|
    ensures |r| == |bits| && forall i :: 0 <= i < |bits| ==> r[i] == (k <= i < k + n || bits[i])
  {
    if n == 0 then bits else Marked(bits, k, n - 1)[k + n - 1 := true]
  }

  function Ones(refs: seq<nat>, k: nat, n: nat): (r: seq<nat>)
    requires k + n <= |refs|
    ensures |r| == |refs| && forall i :: 0 <= i < |refs| ==> r[i] == if k <= i < k + n then 1 else refs[i]
  {
    if n == 0 then refs else Ones(refs, k, n - 1)[k + n - 1 := 1]
  }

  /** The length of the run that a request for `n` pages gets: one for none. */
  function RunLength(n: nat): nat {
    if n == 0 then 1 else n
  }

  /** page_block_alloc of `n` pages: the first page of the run. */
  function Alloc(p: Pages, n: nat): (Pages, Option<nat>)
    requires |p.refs| == |p.bits|
  {
    var m := RunLength(n);
    var k := FirstRun(p.bits, m, 0);
    if k == |p.bits| then (p, None)
    else (Pages(Marked(p.bits, k, m), Ones(p.refs, k, m), p.free - n), Some(k))
  }

  /** page_block_free of one page. */
  function FreePage(p: Pages, k: nat): Pages
    requires k < |p.bits| == |p.refs|
  {
    var r := (p.refs[k] + REFCOUNTS - 1) % REFCOUNTS;
    if r != 0 then p.(refs := p.refs[k := r]) else Pages(p.bits[k := false], p.refs[k := 0], p.free + 1)
  }

  /** page_block_make_ref of one page. */
  function RefPage(p: Pages, k: nat): Pages
    requires k < |p.bits| == |p.refs|
  {
    p.(refs := p.refs[k := (p.refs[k] + 1) % REFCOUNTS])
  }

  // ----- what the operations do -----

  /** One of the `n` pages from `k` on is in use. */
  predicate InUse(bits: seq<bool>, k: nat, n: nat) {
    exists i :: k <= i < k + n && i < |bits| && bits[i]
  }

  lemma RunClearIff(bits: seq<bool>, k: nat, n: nat)
    ensures RunClear(bits, k, n) <==> k + n <= |bits| && !InUse(bits, k, n)
  {
  }

  /** An allocation is the lowest run of pages of which none is in use, and fails only if there is none. */
  lemma AllocFirstFit(p: Pages, n: nat)
    requires |p.refs| == |p.bits| && n >= 1
    ensures match Alloc(p, n).1
            case Some(k) =>
              && k + n <= |p.bits| && !InUse(p.bits, k, n)
              && forall j :: 0 <= j < k ==> InUse(p.bits, j, n)
            case None => forall j :: 0 <= j <= |p.bits| - n ==> InUse(p.bits, j, n)
    ensures match Alloc(p, n).1
            case Some(k) => RunClear(p.bits, k, n) && forall j :: 0 <= j < k ==> !RunClear(p.bits, j, n)
            case None => forall j :: 0 <= j ==> !RunClear(p.bits, j, n)
  {
    forall j: nat
      ensures RunClear(p.bits, j, n) <==> j + n <= |p.bits| && !InUse(p.bits, j, n)
    {
      RunClearIff(p.bits, j, n);
    }
  }

  /** An allocation of no pages marks the lowest page that is not in use, and does not count it. */
  lemma AllocOfNone(p: Pages, p': Pages, k: nat)
    requires |p.refs| == |p.bits| && (p', Some(k)) == Alloc(p, 0)
    ensures k < |p.bits| && !p.bits[k] && (forall j :: 0 <= j < k ==> p.bits[j])
    ensures p' == Pages(p.bits[k := true], p.refs[k := 1], p.free)
  {
    assert Marked(p.bits, k, 1) == p.bits[k := true];
    assert Ones(p.refs, k, 1) == p.refs[k := 1];
    forall j | 0 <= j < k
      ensures p.bits[j]
    {
      assert !RunClear(p.bits, j, 1);
    }
  }

  /** The address handed out, or null. */
  function Address(base: nat, pageSize: nat, r: Option<nat>): nat {
    match r
    case None => 0
    case Some(k) => base + k * pageSize
  }

  /** page_block_alloc returns null exactly when there is no run of clear pages, or the run is that at address
      0; from any address it returns, page_block_free finds the page. */
  lemma NullIff(p: Pages, n: nat, base: nat, pageSize: nat, r: Option<nat>)
    requires |p.refs| == |p.bits| && n >= 1 && pageSize > 0 && r == Alloc(p, n).1
    ensures Address(base, pageSize, r) == 0 <==>
            (forall j :: 0 <= j ==> !RunClear(p.bits, j, n)) || (base == 0 && RunClear(p.bits, 0, n))
    ensures r.Some? ==> (Address(base, pageSize, r) - base) / pageSize == r.value
  {
    AllocFirstFit(p, n);
    if r.Some? {
      DivModUnique(r.value * pageSize, pageSize, r.value, 0);
      StrictMul(0, r.value, pageSize);
    }
  }

  lemma {:induction false} MarkedFree(bits: seq<bool>, k: nat, n: nat)
    requires RunClear(bits, k, n)
    ensures Free(Marked(bits, k, n)) == Free(bits) - n
  {
    if n > 0 {
      MarkedFree(bits, k, n - 1);
      FreeUpdate(Marked(bits, k, n - 1), k + n - 1, true);
    }
  }

  /** An allocation that succeeds keeps the books right if and only if at least one page was asked for. */
  lemma AllocKeepsInvIff(p: Pages, n: nat, p': Pages, r: Option<nat>)
    requires Inv(p) && (p', r) == Alloc(p, n) && r.Some?
    ensures Inv(p') <==> n >= 1
  {
    MarkedFree(p.bits, r.value, RunLength(n));
  }

  /** Freeing a page keeps them right if and only if something refers to it. */
  lemma FreeKeepsInvIff(p: Pages, k: nat, p': Pages)
    requires Inv(p) && k < |p.bits| && p' == FreePage(p, k)
    ensures Inv(p') <==> p.refs[k] > 0
  {
    if p.refs[k] == 0 {
      assert p'.refs[k] == REFCOUNTS - 1;
    } else {
      assert (p.refs[k] + REFCOUNTS - 1) % REFCOUNTS == p.refs[k] - 1;
      if p.refs[k] == 1 {
        FreeUpdate(p.bits, k, false);
      }
    }
  }

  /** A reference keeps them right if and only if the page is in use and its count does not wrap. */
  lemma RefKeepsInvIff(p: Pages, k: nat, p': Pages)
    requires Inv(p) && k < |p.bits| && p' == RefPage(p, k)
    ensures Inv(p') <==> 0 < p.refs[k] < REFCOUNTS - 1
  {
    assert p'.refs[k] == (p.refs[k] + 1) % REFCOUNTS;
    assert p'.bits[k] == p.bits[k];
  }

  // ----- runs -----

  function FreeRun(p: Pages, k: nat, n: nat): (p': Pages)
    requires k + n <= |p.bits| == |p.refs|
    ensures |p'.bits| == |p'.refs| == |p.bits|
    decreases n
  {
    if n == 0 then p else FreeRun(FreePage(p, k), k + 1, n - 1)
  }

  function RefRun(p: Pages, k: nat, n: nat): (p': Pages)
    requires k + n <= |p.bits| == |p.refs|
    ensures |p'.bits| == |p'.refs| == |p.bits|
    decreases n
  {
    if n == 0 then p else RefRun(RefPage(p, k), k + 1, n - 1)
  }

  datatype Op = Take(n: nat) | Drop(k: nat, n: nat) | Share(k: nat, n: nat)

  function Step(p: Pages, op: Op): Pages
    requires |p.refs| == |p.bits| && Legal(p, op)
  {
    match op
    case Take(n) => Alloc(p, n).0
    case Drop(k, n) => FreeRun(p, k, n)
    case Share(k, n) => RefRun(p, k, n)
  }

  /** Callers ask for pages, free pages they refer to, and share a page fewer times than a count can hold. */
  predicate Legal(p: Pages, op: Op)
    requires |p.refs| == |p.bits|
  {
    match op
    case Take(n) => n >= 1
    case Drop(k, n) => k + n <= |p.bits| && forall i :: k <= i < k + n ==> p.refs[i] > 0
    case Share(k, n) => k + n <= |p.bits| && forall i :: k <= i < k + n ==> 0 < p.refs[i] < REFCOUNTS - 1
  }

  lemma FreePageEffect(p: Pages, k: nat, p': Pages)
    requires Inv(p) && k < |p.bits| && p.refs[k] > 0 && p' == FreePage(p, k)
    ensures Inv(p') && p'.refs == p.refs[k := p.refs[k] - 1]
  {
    FreeKeepsInvIff(p, k, p');
    assert (p.refs[k] + REFCOUNTS - 1) % REFCOUNTS == p.refs[k] - 1;
  }

  lemma {:induction false} FreeRunInv(p: Pages, k: nat, n: nat)
    requires Inv(p) && k + n <= |p.bits| && forall i :: k <= i < k + n ==> p.refs[i] > 0
    ensures var p' := FreeRun(p, k, n);
            Inv(p') && forall i :: 0 <= i < |p.bits| ==> p'.refs[i] == if k <= i < k + n then p.refs[i] - 1
            else p.refs[i]
    decreases n
  {
    if n > 0 {
      var p1 := FreePage(p, k);
      FreePageEffect(p, k, p1);
      FreeRunInv(p1, k + 1, n - 1);
    }
  }

  lemma {:induction false} RefRunInv(p: Pages, k: nat, n: nat)
    requires Inv(p) && k + n <= |p.bits| && forall i :: k <= i < k + n ==> 0 < p.refs[i] < REFCOUNTS - 1
    ensures var p' := RefRun(p, k, n); Inv(p') && forall i ::
            0 <= i < |p.bits| ==> p'.refs[i] == if k <= i < k + n then p.refs[i] + 1 else p.refs[i]
    decreases n
  {
    if n > 0 {
      RefKeepsInvIff(p, k, RefPage(p, k));
      RefRunInv(RefPage(p, k), k + 1, n - 1);
    }
  }

  lemma StepInv(p: Pages, op: Op)
    requires Inv(p) && Legal(p, op)
    ensures Inv(Step(p, op)) && |Step(p, op).bits| == |p.bits|
  {
    match op
    case Take(n) =>
      if Alloc(p, n).1.Some? {
        AllocKeepsInvIff(p, n, Alloc(p, n).0, Alloc(p, n).1);
      }
    case Drop(k, n) => FreeRunInv(p, k, n);
    case Share(k, n) => RefRunInv(p, k, n);
  }

  ghost predicate LegalRun(p: Pages, ops: seq<Op>)
    requires |p.refs| == |p.bits|
    decreases |ops|
  {
    ops == [] || (Legal(p, ops[0]) && |Step(p, ops[0]).refs| == |Step(p, ops[0]).bits|
      && LegalRun(Step(p, ops[0]), ops[1..]))
  }

  ghost function After(p: Pages, ops: seq<Op>): Pages
    requires |p.refs| == |p.bits| && LegalRun(p, ops)
    decreases |ops|
  {
    if ops == [] then p else After(Step(p, ops[0]), ops[1..])
  }

  /** Over every run, a page is marked exactly when something refers to it, and the free pages are counted right. */
  lemma {:induction false} RunInv(p: Pages, ops: seq<Op>)
    requires Inv(p) && LegalRun(p, ops)
    ensures Inv(After(p, ops))
    decreases |ops|
  {
    if ops != [] {
      StepInv(p, ops[0]);
      RunInv(Step(p, ops[0]), ops[1..]);
    }
  }

  /** Pages handed out had no references, and freeing them gives back the state before. */
  lemma FreeUndoesAlloc(p: Pages, n: nat, p': Pages, k: nat)
    requires Inv(p) && n >= 1 && (p', Some(k)) == Alloc(p, n)
    ensures k + n <= |p.bits| == |p'.bits| == |p'.refs|
    ensures (forall i :: k <= i < k + n ==> p.refs[i] == 0 && p'.refs[i] == 1) && FreeRun(p', k, n) == p
  {
    AllocKeepsInvIff(p, n, p', Some(k));
    FreeRunInv(p', k, n);
    SameRefs(p, FreeRun(p', k, n));
  }

  /** The references determine the rest. */
  lemma SameRefs(p: Pages, q: Pages)
    requires Inv(p) && Inv(q) && |p.bits| == |q.bits| && forall i :: 0 <= i < |p.bits| ==> p.refs[i] == q.refs[i]
    ensures p == q
  {
    assert q.refs == p.refs;
    assert q.bits == p.bits;
  }

  // ----- words -----

  const ALL_PAGES := 0xFFFF

  /** Bit `k` of a word. */
  predicate Bit(w: nat, k: nat) {
    if k == 0 then w % 2 == 1 else Bit(w / 2, k - 1)
  }

  /** The word or'ed with bit `k`. */
  function WithBit(w: nat, k: nat): nat {
    if k == 0 then w / 2 * 2 + 1 else WithBit(w / 2, k - 1) * 2 + w % 2
  }

  /** The word and'ed with the complement of bit `k`. */
  function WithoutBit(w: nat, k: nat): nat {
    if k == 0 then w / 2 * 2 else WithoutBit(w / 2, k - 1) * 2 + w % 2
  }

  lemma {:induction false} WithBitBits(w: nat, k: nat, j: nat)
    ensures Bit(WithBit(w, k), j) <==> j == k || Bit(w, j)
    ensures Bit(WithoutBit(w, k), j) <==> j != k && Bit(w, j)
  {
    if k > 0 && j > 0 {
      WithBitBits(w / 2, k - 1, j - 1);
    }
  }

  /** The word with the lowest `n` bits set. */
  function LowBits(n: nat): nat {
    if n == 0 then 0 else LowBits(n - 1) * 2 + 1
  }

  lemma {:induction false} LowBitsSet(n: nat, j: nat)
    requires j < n
    ensures Bit(LowBits(n), j)
  {
    if j > 0 {
      LowBitsSet(n - 1, j - 1);
    }
  }

  /** A full word has every bit set. */
  lemma FullWord(j: nat)
    requires j < PER_WORD
    ensures Bit(ALL_PAGES, j)
  {
    LowBitsSet(PER_WORD, j);
    assert LowBits(4) == 0xF && LowBits(8) == 0xFF && LowBits(12) == 0xFFF && LowBits(16) == 0xFFFF;
  }

  /** No run starts at a marked page, so a search may go on after it. */
  lemma {:induction false} SkipMarked(bits: seq<bool>, n: nat, i: nat, j: nat)
    requires i <= j <= |bits| && n >= 1 && forall k :: i <= k < j ==> bits[k]
    ensures FirstRun(bits, n, i) == FirstRun(bits, n, j)
    decreases j - i
  {
    if i < j {
      SkipMarked(bits, n, i + 1, j);
      assert bits[i] && !RunClear(bits, i, n);
    }
  }

  /** Page `k` is marked in its word of the bitmap. */
  predicate Flag(bitmap: seq<nat>, k: nat)
    requires k / PER_WORD < |bitmap|
  {
    Bit(bitmap[k / PER_WORD], k % PER_WORD)
  }

  // ----- how they start -----

  /** memset to zero of the first `bytes` bytes of 16-bit numbers, high byte first. */
  function Cleared(mem: seq<nat>, bytes: nat): (r: seq<nat>)
    ensures |r| == |mem|
    ensures forall i :: 0 <= i < |mem| ==> r[i] == if 2 * i + 1 < bytes then 0
            else if 2 * i < bytes then mem[i] % 0x100 else mem[i]
  {
    seq(|mem|, i requires 0 <= i < |mem| => if 2 * i + 1 < bytes then 0 else if 2 * i < bytes then mem[i] % 0x100
      else mem[i])
  }

  /** init_page_block_with_bitmap clears as many bytes as there are words in the bitmap, and as there are pages
      with counts. */
  function Initial(total: nat, words: seq<nat>, counts: seq<nat>): (p: Pages)
    requires total <= |words| * PER_WORD && total <= |counts|
    ensures |p.bits| == |p.refs| == total && p.free == total
    ensures forall k :: 0 <= k < total ==>
            p.bits[k] == Flag(Cleared(words, |words|), k) && p.refs[k] == Cleared(counts, total)[k]
  {
    var ws := Cleared(words, |words|);
    Pages(seq(total, k requires 0 <= k < total => Flag(ws, k)), Cleared(counts, total)[..total], total)
  }

  lemma {:induction false} AllFreeIff(bits: seq<bool>)
    ensures Free(bits) <= |bits| && (Free(bits) == |bits| <==> forall k :: 0 <= k < |bits| ==> !bits[k])
  {
    if bits != [] {
      var n := |bits| - 1;
      AllFreeIff(bits[..n]);
      assert (forall k :: 0 <= k < |bits| ==> !bits[k]) <==> !bits[n] && forall k :: 0 <= k < n ==> !bits[..n][k];
    }
  }

  /** What memset left alone of the page's word is clear, and of its count zero. */
  predicate CleanBefore(total: nat, words: seq<nat>, counts: seq<nat>, k: nat)
    requires k < total <= |words| * PER_WORD && total <= |counts|
  {
    var i := k / PER_WORD;
    && (2 * i + 1 < |words| || !Bit(if 2 * i < |words| then words[i] % 0x100 else words[i], k % PER_WORD))
    && (2 * k + 1 < total || (if 2 * k < total then counts[k] % 0x100 else counts[k]) == 0)
  }

  /** The books start out right if and only if the half of bitmap and counts that is not cleared was clear already. */
  lemma InitialInvIff(total: nat, words: seq<nat>, counts: seq<nat>)
    requires total <= |words| * PER_WORD && total <= |counts|
    ensures Inv(Initial(total, words, counts)) <==> forall k :: 0 <= k < total ==> CleanBefore(total, words, counts, k)
  {
    var p := Initial(total, words, counts);
    AllFreeIff(p.bits);
    forall k | 0 <= k < total
      ensures CleanBefore(total, words, counts, k) <==> !p.bits[k] && p.refs[k] == 0
    {
      ZeroWord(k % PER_WORD);
    }
  }

  class PageBlock {
    const totalPages: nat
    var freePages: int
    const bitmap: array<nat>
    const refcounts: array<nat>
    ghost var p: Pages

    ghost predicate Valid()
      reads this, bitmap, refcounts
    {
      && bitmap != refcounts && totalPages <= bitmap.Length * PER_WORD && totalPages <= refcounts.Length
      && |p.bits| == |p.refs| == totalPages && p.free == freePages
      && (forall k :: 0 <= k < totalPages ==> p.bits[k] == Flag(bitmap[..], k))
      && (forall k :: 0 <= k < totalPages ==> p.refs[k] == refcounts[k])
    }

    /** init_page_block_with_bitmap, of memory that holds `words` and `counts`; a bitmap too small for the pages
        is refused. */
    constructor (total: nat, words: seq<nat>, counts: seq<nat>)
      requires total <= |words| * PER_WORD && total <= |counts|
      ensures Valid() && fresh(bitmap) && fresh(refcounts) && totalPages == total
      ensures p == Initial(total, words, counts)
    {
      totalPages, freePages := total, total;
      var ws, cs := Cleared(words, |words|), Cleared(counts, total);
      var wordArray := new nat[|words|](i requires 0 <= i < |ws| => ws[i]);
      var countArray := new nat[|counts|](i requires 0 <= i < |cs| => cs[i]);
      bitmap, refcounts := wordArray, countArray;
      p := Initial(total, words, counts);
      assert wordArray[..] == ws;
    }

    /** A search is inside a word only if that word is not full. */
    predicate Aligned(start: nat)
      reads bitmap
      requires totalPages <= bitmap.Length * PER_WORD
    {
      start < totalPages && start % PER_WORD != 0 ==> bitmap[start / PER_WORD] != ALL_PAGES
    }

    /** One round of page_block_alloc's search: found here, or where to look next. */
    method Look(start: nat, n: nat, ghost goal: nat) returns (found: bool, next: nat)
      requires Valid() && start < totalPages && Aligned(start) && goal == FirstRun(p.bits, RunLength(n), start)
      ensures found ==> goal == start && next == start
      ensures !found ==> next > start && Aligned(next) && goal == FirstRun(p.bits, RunLength(n), Min(next, totalPages))
    {
      if bitmap[start / PER_WORD] == ALL_PAGES {
        SkipWord(start, n);
        return false, start + PER_WORD;
      }
      if Bit(bitmap[start / PER_WORD], start % PER_WORD) {
        SkipMarked(p.bits, RunLength(n), start, start + 1);
        return false, start + 1;
      }
      var end := RunEnd(start, n);
      if end > totalPages || end - start < n {
        return false, start + 1;
      }
      return true, start;
    }

    /** page_block_alloc's search: the first page of the lowest run of clear pages, or totalPages. */
    method FindRun(n: nat) returns (start: nat)
      requires Valid()
      ensures start == FirstRun(p.bits, RunLength(n), 0)
    {
      start := 0;
      ghost var goal := FirstRun(p.bits, RunLength(n), 0);
      while start < totalPages
        invariant Aligned(start) && goal == FirstRun(p.bits, RunLength(n), Min(start, totalPages))
        decreases totalPages - start
      {
        var found;
        found, start := Look(start, n, goal);
        if found {
          return;
        }
      }
      start := totalPages;
    }

    /** Where the clear pages from `start` on end, or are enough. */
    method RunEnd(start: nat, n: nat) returns (end: nat)
      requires Valid() && start < totalPages && !p.bits[start]
      ensures start < end <= totalPages && (RunClear(p.bits, start, RunLength(n)) <==> end - start >= n)
      ensures end - start >= n ==> end == start + RunLength(n)
    {
      end := start + 1;
      while end < totalPages && end - start < n && !Bit(bitmap[end / PER_WORD], end % PER_WORD)
        invariant start < end <= totalPages && RunClear(p.bits, start, end - start)
        invariant end - start <= n || end == start + 1
      {
        end := end + 1;
      }
      assert end < totalPages && end - start < n ==> p.bits[end];
    }

    /** All pages of a full word are marked. */
    lemma SkipWord(start: nat, n: nat)
      requires Valid() && start < totalPages && start % PER_WORD == 0 && bitmap[start / PER_WORD] == ALL_PAGES
      ensures FirstRun(p.bits, RunLength(n), start) == FirstRun(p.bits, RunLength(n), Min(start + PER_WORD, totalPages))
    {
      forall k | start <= k < Min(start + PER_WORD, totalPages)
        ensures p.bits[k]
      {
        FullWord(k % PER_WORD);
        assert k / PER_WORD == start / PER_WORD;
      }
      SkipMarked(p.bits, RunLength(n), start, Min(start + PER_WORD, totalPages));
    }

    /** page_block_alloc, of `n` pages. */
    method AllocPages(n: nat) returns (r: Option<nat>)
      requires Valid()
      modifies this, bitmap, refcounts
      ensures Valid() && (p, r) == Alloc(old(p), n)
    {
      var start := FindRun(n);
      if start == totalPages {
        return None;
      }
      ghost var was := p;
      var m := RunLength(n);
      for i := 0 to m
        invariant Valid() && p == Pages(Marked(was.bits, start, i), Ones(was.refs, start, i), was.free)
      {
        MarkPage(start + i);
      }
      freePages := freePages - n;
      p := p.(free := p.free - n);
      return Some(start);
    }

    method MarkPage(k: nat)
      requires Valid() && k < totalPages
      modifies this`p, bitmap, refcounts
      ensures Valid() && p == old(p).(bits := old(p).bits[k := true], refs := old(p).refs[k := 1])
    {
      refcounts[k] := 1;
      p := p.(refs := p.refs[k := 1]);
      SetFlag(k, true);
    }

    /** page_block_free, of `n` pages from page `k` on. */
    method FreePages(k: nat, n: nat)
      requires Valid() && k + n <= totalPages
      modifies this, bitmap, refcounts
      ensures Valid() && p == FreeRun(old(p), k, n)
    {
      var page: nat, left: nat := k, n;
      ghost var goal := FreeRun(p, k, n);
      while left > 0
        invariant Valid() && page + left == k + n && goal == FreeRun(p, page, left)
      {
        DropPage(page);
        page, left := page + 1, left - 1;
      }
    }

    method DropPage(k: nat)
      requires Valid() && k < totalPages
      modifies this, bitmap, refcounts
      ensures Valid() && p == FreePage(old(p), k)
    {
      refcounts[k] := (refcounts[k] + REFCOUNTS - 1) % REFCOUNTS;
      p := p.(refs := p.refs[k := refcounts[k]]);
      if refcounts[k] == 0 {
        SetFlag(k, false);
        freePages := freePages + 1;
        p := p.(free := freePages);
      }
    }

    /** page_block_make_ref, of `n` pages from page `k` on. */
    method MakeRef(k: nat, n: nat)
      requires Valid() && k + n <= totalPages
      modifies this`p, refcounts
      ensures Valid() && p == RefRun(old(p), k, n)
    {
      var page: nat, left: nat := k, n;
      ghost var goal := RefRun(p, k, n);
      while left > 0
        invariant Valid() && page + left == k + n && goal == RefRun(p, page, left)
      {
        refcounts[page] := (refcounts[page] + 1) % REFCOUNTS;
        p := RefPage(p, page);
        page, left := page + 1, left - 1;
      }
    }

    /** Mark page `k`, or free it, in the bitmap alone. */
    method SetFlag(k: nat, value: bool)
      requires Valid() && k < totalPages
      modifies this`p, bitmap
      ensures Valid() && p == old(p).(bits := old(p).bits[k := value])
    {
      var i := k / PER_WORD;
      ghost var was := bitmap[..];
      bitmap[i] := if value then WithBit(bitmap[i], k % PER_WORD) else WithoutBit(bitmap[i], k % PER_WORD);
      p := p.(bits := p.bits[k := value]);
      forall j | 0 <= j < totalPages
        ensures Flag(bitmap[..], j) == if j == k then value else Flag(was, j)
      {
        WithBitBits(was[i], k % PER_WORD, j % PER_WORD);
      }
    }
  }

  lemma {:induction false} ZeroWord(k: nat)
    ensures !Bit(0, k)
  {
    if k > 0 {
      ZeroWord(k - 1);
    }
  }
}
