/**
 What the buffer cache is to a file system that gets blocks one at a time and
 holds none in between: the plain map from numbers to blocks that the model of
 Minix volumes is built on.
 */
module BlockAccess {
  import opened BufferCache
  import opened Common

  /** get_block and release_block, with what is read or written in between; or sync_bufcache. */
  datatype Access = Fetch(num: nat) | Put(num: nat, data: Data) | Flush

  /** An access through the cache. */
  function ThroughCache(c: Cache, a: Access): (Cache, Reply) {
    match a
    case Flush => (Step(c, Sync).0, Done)
    case Fetch(n) =>
      var (c1, reply, got) := Step(c, Ask(n));
      if got.Buffer? then (Step(c1, Release(got.id, false)).0, reply) else (c1, reply)
    case Put(n, data) =>
      var (c1, reply, got) := Step(c, Ask(n));
      if got.Buffer? then
        var c2 := Step(c1, Write(got.id, data)).0;
        (Step(c2, Release(got.id, true)).0, Done)
      else (c1, reply)
  }

  /** The same access to the blocks themselves. */
  function ToBlocks(blocks: map<nat, Data>, a: Access): (map<nat, Data>, Reply) {
    match a
    case Flush => (blocks, Done)
    case Fetch(n) => (blocks, if n in blocks then Bytes(blocks[n]) else Halted)
    case Put(n, data) => (blocks[n := data], Done)
  }

  /** Blocks the device has; block 0 is only read. */
  predicate Proper(blocks: map<nat, Data>, a: Access) {
    match a
    case Flush => true
    case Fetch(n) => n in blocks
    case Put(n, _) => n in blocks && n != 0
  }

  /** With nothing held, get_block does not panic. */
  lemma NeverFull(c: Cache, blocks: map<nat, Data>, n: nat)
    requires Inv(c, Plain(blocks, map[])) && n in blocks
    ensures var (c1, reply, got) := Step(c, Ask(n));
            got.Buffer? && reply == Bytes(blocks[n]) && Inv(c1, Plain(blocks, map[got.id := Hold(n, 1, false)]))
  {
    var p := Plain(blocks, map[]);
    var (c1, got) := Get(c, n);
    GetRefines(c, p, n, c1, got);
    assert c.entries != [] ==> EntryOk(c.disk, p, c.entries[0]);
    StepRefines(c, p, Ask(n));
    assert Taken(map[], got.id, n) == map[got.id := Hold(n, 1, false)];
  }

  lemma AccessRefines(c: Cache, blocks: map<nat, Data>, a: Access)
    requires Inv(c, Plain(blocks, map[])) && Proper(blocks, a)
    ensures var (c', reply) := ThroughCache(c, a);
            reply == ToBlocks(blocks, a).1 && Inv(c', Plain(ToBlocks(blocks, a).0, map[]))
  {
    match a
    case Flush => StepRefines(c, Plain(blocks, map[]), Sync);
    case Fetch(n) =>
      NeverFull(c, blocks, n);
      var (c1, _, got) := Step(c, Ask(n));
      var held: map<nat, Hold> := map[got.id := Hold(n, 1, false)];
      StepRefines(c1, Plain(blocks, held), Release(got.id, false));
      assert Dropped(held, got.id, false) == map[];
    case Put(n, data) =>
      NeverFull(c, blocks, n);
      var (c1, _, got) := Step(c, Ask(n));
      var held, held2: map<nat, Hold> := map[got.id := Hold(n, 1, false)], map[got.id := Hold(n, 1, true)];
      StepRefines(c1, Plain(blocks, held), Write(got.id, data));
      assert held[got.id := held[got.id].(unmarked := true)] == held2;
      var c2 := Step(c1, Write(got.id, data)).0;
      StepRefines(c2, Plain(blocks[n := data], held2), Release(got.id, true));
      assert Dropped(held2, got.id, true) == map[];
  }

  function AllThroughCache(c: Cache, list: seq<Access>): (Cache, seq<Reply>)
    decreases |list|
  {
    if list == [] then (c, [])
    else
      var (c1, r) := ThroughCache(c, list[0]);
      var (c2, rs) := AllThroughCache(c1, list[1..]);
      (c2, [r] + rs)
  }

  function AllToBlocks(blocks: map<nat, Data>, list: seq<Access>): (map<nat, Data>, seq<Reply>)
    decreases |list|
  {
    if list == [] then (blocks, [])
    else
      var (b1, r) := ToBlocks(blocks, list[0]);
      var (b2, rs) := AllToBlocks(b1, list[1..]);
      (b2, [r] + rs)
  }

  /** Over every run of accesses the cache cannot be told from the blocks, and holds nothing at the end. */
  lemma {:induction false} CacheIsBlocks(c: Cache, blocks: map<nat, Data>, list: seq<Access>)
    requires Inv(c, Plain(blocks, map[])) && forall i :: 0 <= i < |list| ==> Proper(blocks, list[i])
    ensures var (c', replies) := AllThroughCache(c, list);
            replies == AllToBlocks(blocks, list).1 && Inv(c', Plain(AllToBlocks(blocks, list).0, map[]))
    decreases |list|
  {
    if list != [] {
      AccessRefines(c, blocks, list[0]);
      CacheIsBlocks(ThroughCache(c, list[0]).0, ToBlocks(blocks, list[0]).0, list[1..]);
    }
  }
}
