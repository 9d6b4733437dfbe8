/**
 * The block buffer cache (bufcache.c): a list of at most BUFCACHE_MAX buffers in order of use, written back
 * to the device when they are recycled.  A client of the cache cannot tell it from a plain disk.
 */
module BufferCache {
  import opened Common

  const BUFCACHE_MAX := 100

  type Data = seq<byte>

  /** struct buf; `id` stands for its address. */
  datatype Entry = Entry(id: nat, num: nat, refs: nat, dirty: bool, data: Data)

  /** The device and the buffers, most recently used first. */
  datatype Cache = Cache(disk: map<nat, Data>, entries: seq<Entry>)

  /** What a get_block comes to: a buffer, a null pointer, or a halted kernel. */
  datatype Got = Buffer(id: nat) | NoBlock | Panic

  // ----- the operations -----

  /** The first buffer from `i` on that holds block `n`, or |es|. */
  function LookupFrom(es: seq<Entry>, n: nat, i: nat): (k: nat)
    requires i <= |es|
    ensures i <= k <= |es| && (k < |es| ==> es[k].num == n)
    ensures forall j :: i <= j < k ==> es[j].num != n
    decreases |es| - i
  {
    if i == |es| || es[i].num == n then i else LookupFrom(es, n, i + 1)
  }

  function Lookup(es: seq<Entry>, n: nat): nat {
    LookupFrom(es, n, 0)
  }

  /** The last buffer below `i` that nobody holds, or |es| if all are held. */
  function VictimBelow(es: seq<Entry>, i: nat): (k: nat)
    requires i <= |es|
    ensures k < i || k == |es|
    ensures k < i ==> es[k].refs == 0 && forall j :: k < j < i ==> es[j].refs > 0
    ensures k == |es| ==> forall j :: 0 <= j < i ==> es[j].refs > 0
  {
    if i == 0 then |es| else if es[i - 1].refs == 0 then i - 1 else VictimBelow(es, i - 1)
  }

  function Victim(es: seq<Entry>): nat {
    VictimBelow(es, |es|)
  }

  /** Entry `i` replaced by `e` and moved to the front. */
  function Front(es: seq<Entry>, i: nat, e: Entry): seq<Entry>
    requires i < |es|
  {
    [e] + es[..i] + es[i + 1..]
  }

  /** _write_entry. */
  function WriteBack(disk: map<nat, Data>, e: Entry): map<nat, Data> {
    if e.dirty then disk[e.num := e.data] else disk
  }

  /** _find_free_entry: write back the buffer to be recycled, unless it holds block 0; None for a panic. */
  function FindFree(c: Cache): Option<Cache> {
    if |c.entries| < BUFCACHE_MAX then Some(c.(entries := [Entry(|c.entries|, 0, 0, false, [])] + c.entries))
    else
      var v := Victim(c.entries);
      if v == |c.entries| then None
      else
        var e := c.entries[v];
        if e.num != 0 then Some(Cache(WriteBack(c.disk, e), Front(c.entries, v, e.(dirty := false))))
        else Some(c.(entries := Front(c.entries, v, e)))
  }

  /** _load_block; a failed read leaves the buffer numbered but unread. */
  function Load(c: Cache, n: nat): (Cache, Got) {
    match FindFree(c)
    case None => (c, Panic)
    case Some(c1) =>
      if c1.entries == [] then (c, Panic)
      else
        var e := c1.entries[0];
        if n in c1.disk then (c1.(entries := c1.entries[0 := Entry(e.id, n, 1, false, c1.disk[n])]), Buffer(e.id))
        else (c1.(entries := c1.entries[0 := Entry(e.id, n, 0, false, e.data)]), NoBlock)
  }

  /** get_block. */
  function Get(c: Cache, n: nat): (Cache, Got) {
    var i := Lookup(c.entries, n);
    if i < |c.entries| then
      var e := c.entries[i];
      (c.(entries := Front(c.entries, i, e.(refs := e.refs + 1))), Buffer(e.id))
    else Load(c, n)
  }

  /** Where the buffer at address `id` is in the list, from `i` on, or |es|. */
  function PositionFrom(es: seq<Entry>, id: nat, i: nat): (k: nat)
    requires i <= |es|
    ensures i <= k <= |es| && (k < |es| ==> es[k].id == id)
    ensures forall j :: i <= j < k ==> es[j].id != id
    decreases |es| - i
  {
    if i == |es| || es[i].id == id then i else PositionFrom(es, id, i + 1)
  }

  function Position(es: seq<Entry>, id: nat): nat {
    PositionFrom(es, id, 0)
  }

  /** release_block: a count that would go below zero stays there. */
  function Released(e: Entry, dirty: bool): Entry {
    e.(dirty := e.dirty || dirty, refs := if e.refs == 0 then 0 else e.refs - 1)
  }

  function Update(c: Cache, id: nat, e: Entry): Cache {
    var i := Position(c.entries, id);
    if i < |c.entries| then c.(entries := c.entries[i := e]) else c
  }

  /** sync_bufcache from buffer `i` on. */
  function SyncFrom(c: Cache, i: nat): Cache
    requires i <= |c.entries|
    decreases |c.entries| - i
  {
    if i == |c.entries| then c
    else
      var e := c.entries[i];
      SyncFrom(Cache(WriteBack(c.disk, e), c.entries[i := e.(dirty := false)]), i + 1)
  }

  // ----- a client over a run, and the plain disk it could be using instead -----

  datatype Op = Ask(num: nat) | Peek(id: nat) | Write(id: nat, data: Data) | Mark(id: nat)
      | Release(id: nat, dirty: bool) | Sync

  /** What a client sees of a step. */
  datatype Reply = Done | Bytes(data: Data) | Halted

  /** What a client remembers of a buffer it holds: its block, how often it holds it, and whether it has written
      to it without saying so. */
  datatype Hold = Hold(num: nat, count: nat, unmarked: bool)

  datatype Plain = Plain(disk: map<nat, Data>, held: map<nat, Hold>)

  function EntryOf(c: Cache, id: nat): Option<Entry> {
    var i := Position(c.entries, id);
    if i < |c.entries| then Some(c.entries[i]) else None
  }

  function Step(c: Cache, op: Op): (Cache, Reply, Got) {
    match op
    case Ask(n) =>
      var (c', got) := Get(c, n);
      (match got
       case Buffer(id) => (match EntryOf(c', id) case None => (c', Halted, got)
         case Some(e) => (c', Bytes(e.data), got))
       case _ => (c', Halted, got))
    case Peek(id) => (match EntryOf(c, id) case None => (c, Halted, NoBlock)
      case Some(e) => (c, Bytes(e.data), NoBlock))
    case Write(id, data) => (match EntryOf(c, id) case None => (c, Halted, NoBlock)
      case Some(e) => (Update(c, id, e.(data := data)), Done, NoBlock))
    case Mark(id) => (match EntryOf(c, id) case None => (c, Halted, NoBlock)
      case Some(e) => (Update(c, id, e.(dirty := true)), Done, NoBlock))
    case Release(id, dirty) => (match EntryOf(c, id) case None => (c, Halted, NoBlock)
      case Some(e) => (Update(c, id, Released(e, dirty)), Done, NoBlock))
    case Sync => (SyncFrom(c, 0), Done, NoBlock)
  }

  /** The client's own bookkeeping when it gets block `n` in buffer `id`. */
  function Taken(held: map<nat, Hold>, id: nat, n: nat): map<nat, Hold> {
    held[id := if id in held then held[id].(count := held[id].count + 1) else Hold(n, 1, false)]
  }

  /** ... and when it releases it. */
  function Dropped(held: map<nat, Hold>, id: nat, dirty: bool): map<nat, Hold>
    requires id in held
  {
    var k := held[id];
    if k.count <= 1 then held - {id} else held[id := Hold(k.num, k.count - 1, k.unmarked && !dirty)]
  }

  /** The same operation on a disk without a cache. `got` only names the buffer. */
  function PlainStep(p: Plain, op: Op, got: Got): (Plain, Reply) {
    match op
    case Ask(n) => if got.Buffer? && n in p.disk then (p.(held := Taken(p.held, got.id, n)), Bytes(p.disk[n]))
      else (p, Halted)
    case Peek(id) => if id in p.held && p.held[id].num in p.disk then (p, Bytes(p.disk[p.held[id].num]))
      else (p, Halted)
    case Write(id, data) =>
      if id in p.held then (Plain(p.disk[p.held[id].num := data], p.held[id := p.held[id].(unmarked := true)]), Done)
         else (p, Halted)
    case Mark(id) => if id in p.held then (p.(held := p.held[id := p.held[id].(unmarked := false)]), Done)
      else (p, Halted)
    case Release(id, dirty) => if id in p.held then (p.(held := Dropped(p.held, id, dirty)), Done) else (p, Halted)
    case Sync => (p, Done)
  }

  /** The client asks for blocks the device has, uses what it holds, leaves block 0 alone, and says what it has
      written before letting go of it. */
  predicate Legal(p: Plain, op: Op) {
    match op
    case Ask(n) => n in p.disk
    case Peek(id) => id in p.held
    case Write(id, _) => id in p.held && p.held[id].num != 0
    case Mark(id) => id in p.held && p.held[id].num != 0
    case Release(id, dirty) =>
      id in p.held && (dirty ==> p.held[id].num != 0) && (dirty || !p.held[id].unmarked || p.held[id].count > 1)
    case Sync => true
  }

  // ----- the invariant -----

  /** A buffer shows its block as the client last wrote it, is held as often as the client holds it, and for the
      same block, and agrees with the device unless it is marked or the client has yet to mark it. */
  ghost predicate EntryOk(disk: map<nat, Data>, p: Plain, e: Entry) {
    && e.num in disk && e.num in p.disk && p.disk[e.num] == e.data
    && (e.dirty ==> e.num != 0)
    && (if e.id in p.held then p.held[e.id].num == e.num && p.held[e.id].count == e.refs > 0 else e.refs == 0)
    && (e.dirty || (e.id in p.held && p.held[e.id].unmarked) || e.data == disk[e.num])
    && (e.id in p.held && p.held[e.id].unmarked ==> e.num != 0)
  }

  ghost predicate Distinct(es: seq<Entry>) {
    && (forall i, j :: 0 <= i < j < |es| ==> es[i].num != es[j].num)
    && (forall i, j :: 0 <= i < j < |es| ==> es[i].id != es[j].id)
    && (forall i :: 0 <= i < |es| ==> es[i].id < |es|)
  }

  predicate Cached(es: seq<Entry>, n: nat) {
    Lookup(es, n) < |es|
  }

  /** A block without a buffer is up to date on the device. */
  ghost predicate StoredOk(c: Cache, p: Plain, n: nat) {
    n in p.disk && !Cached(c.entries, n) ==> n in c.disk && c.disk[n] == p.disk[n]
  }

  /** A buffer the client holds exists. */
  ghost predicate HeldOk(c: Cache, p: Plain, id: nat) {
    id in p.held ==> Position(c.entries, id) < |c.entries|
  }

  ghost predicate Inv(c: Cache, p: Plain) {
    && |c.entries| <= BUFCACHE_MAX && Distinct(c.entries)
    && (forall n :: n in c.disk <==> n in p.disk)
    && (forall i :: 0 <= i < |c.entries| ==> EntryOk(c.disk, p, c.entries[i]))
    && (forall n :: StoredOk(c, p, n))
    && (forall id :: HeldOk(c, p, id))
  }

  lemma FrontAt(es: seq<Entry>, i: nat, e: Entry, k: nat)
    requires i < |es| && k < |es|
    ensures |Front(es, i, e)| == |es|
    ensures Front(es, i, e)[k] == if k == 0 then e else if k <= i then es[k - 1] else es[k]
  {
  }

  /** Moving buffer `i` to the front, under the same address, keeps buffers apart if its new number is its own. */
  lemma FrontDistinct(es: seq<Entry>, i: nat, e: Entry)
    requires Distinct(es) && i < |es| && e.id == es[i].id && forall j :: 0 <= j < |es| && j != i ==> es[j].num != e.num
    ensures Distinct(Front(es, i, e))
  {
    var es' := Front(es, i, e);
    forall k, l | 0 <= k < l < |es'|
      ensures es'[k].num != es'[l].num && es'[k].id != es'[l].id
    {
      FrontAt(es, i, e, k);
      FrontAt(es, i, e, l);
    }
    forall k | 0 <= k < |es'|
      ensures es'[k].id < |es'|
    {
      FrontAt(es, i, e, k);
    }
  }

  /** The buffers of Front, by where they were. */
  lemma FrontHas(es: seq<Entry>, i: nat, e: Entry, j: nat)
    requires i < |es| && j < |es|
    ensures (if j == i then e else es[j]) in Front(es, i, e)
  {
    var k := if j == i then 0 else if j < i then j + 1 else j;
    FrontAt(es, i, e, k);
    assert Front(es, i, e)[k] in Front(es, i, e);
  }

  lemma CachedIff(es: seq<Entry>, n: nat)
    ensures Cached(es, n) <==> exists e :: e in es && e.num == n
  {
    if Cached(es, n) {
      assert es[Lookup(es, n)] in es;
    }
  }

  lemma PositionIff(es: seq<Entry>, id: nat)
    ensures Position(es, id) < |es| <==> exists e :: e in es && e.id == id
  {
    if Position(es, id) < |es| {
      assert es[Position(es, id)] in es;
    }
  }

  /** The two disks have the blocks they had, and only those of blocks `m` and `n` have changed. */
  ghost predicate OnlyAt(c: Cache, p: Plain, c': Cache, p': Plain, m: nat, n: nat) {
    && (forall k :: (k in c'.disk <==> k in c.disk) && (k in p'.disk <==> k in p.disk))
    && (forall k :: k in c.disk && k != m && k != n ==> c'.disk[k] == c.disk[k])
    && (forall k :: k in p.disk && k != m && k != n ==> p'.disk[k] == p.disk[k])
  }

  /** Where the buffers are in the list, nothing else depends on. */
  lemma FrontInv(c: Cache, p: Plain, c': Cache, p': Plain, i: nat, e: Entry)
    requires Inv(c, p) && i < |c.entries| && e.id == c.entries[i].id && c'.entries == Front(c.entries, i, e)
    requires OnlyAt(c, p, c', p', e.num, c.entries[i].num)
    requires forall j :: 0 <= j < |c.entries| && j != i ==>
             c.entries[j].num != e.num && EntryOk(c'.disk, p', c.entries[j])
    requires EntryOk(c'.disk, p', e)
    requires var n := c.entries[i].num; n == e.num || (n in c'.disk && n in p'.disk && c'.disk[n] == p'.disk[n])
    requires forall id :: id in p'.held ==> id in p.held || id == e.id
    ensures Inv(c', p')
  {
    FrontDistinct(c.entries, i, e);
    FrontHas(c.entries, i, e, i);
    forall k | 0 <= k < |c'.entries|
      ensures EntryOk(c'.disk, p', c'.entries[k])
    {
      FrontAt(c.entries, i, e, k);
    }
    forall n
      ensures StoredOk(c', p', n)
    {
      assert StoredOk(c, p, n);
      CachedIff(c'.entries, n);
      var j := Lookup(c.entries, n);
      if j < |c.entries| {
        FrontHas(c.entries, i, e, j);
      }
    }
    forall id
      ensures HeldOk(c', p', id)
    {
      assert HeldOk(c, p, id);
      PositionIff(c'.entries, id);
      var j := Position(c.entries, id);
      if j < |c.entries| {
        FrontHas(c.entries, i, e, j);
      }
    }
  }

  /** The same for a buffer changed where it stands. */
  lemma UpdateInv(c: Cache, p: Plain, c': Cache, p': Plain, i: nat, e: Entry)
    requires Inv(c, p) && i < |c.entries| && e.id == c.entries[i].id && e.num == c.entries[i].num
    requires c'.entries == c.entries[i := e]
    requires OnlyAt(c, p, c', p', e.num, e.num)
    requires forall j :: 0 <= j < |c.entries| && j != i ==> EntryOk(c'.disk, p', c.entries[j])
    requires EntryOk(c'.disk, p', e)
    requires forall id :: id in p'.held ==> id in p.held
    ensures Inv(c', p')
  {
    assert e in c'.entries by {
      assert c'.entries[i] == e;
    }
    forall n
      ensures StoredOk(c', p', n)
    {
      assert StoredOk(c, p, n);
      CachedIff(c'.entries, n);
      var j := Lookup(c.entries, n);
      assert j < |c.entries| && j != i ==> c'.entries[j] == c.entries[j] && c.entries[j] in c'.entries;
    }
    forall id
      ensures HeldOk(c', p', id)
    {
      assert HeldOk(c, p, id);
      PositionIff(c'.entries, id);
      var j := Position(c.entries, id);
      assert j < |c.entries| && j != i ==> c'.entries[j] == c.entries[j] && c.entries[j] in c'.entries;
    }
  }

  /** get_block of a block that is cached. */
  lemma HitInv(c: Cache, p: Plain, n: nat, i: nat, c': Cache, p': Plain)
    requires Inv(c, p) && i < |c.entries| && c.entries[i].num == n
    requires var e := c.entries[i];
             c' == c.(entries := Front(c.entries, i, e.(refs := e.refs + 1)))
               && p' == p.(held := Taken(p.held, e.id, n))
    ensures Inv(c', p')
  {
    var e := c.entries[i];
    assert EntryOk(c.disk, p, e);
    forall j | 0 <= j < |c.entries| && j != i
      ensures c.entries[j].num != n && EntryOk(c'.disk, p', c.entries[j])
    {
      assert EntryOk(c.disk, p, c.entries[j]);
    }
    FrontInv(c, p, c', p', i, e.(refs := e.refs + 1));
  }

  /** get_block into the recycled buffer `v`: what it held is on the device by then. */
  lemma RecycleInv(c: Cache, p: Plain, n: nat, v: nat, c': Cache, p': Plain)
    requires Inv(c, p) && n in p.disk && !Cached(c.entries, n) && v < |c.entries| && c.entries[v].refs == 0
    requires var e := c.entries[v];
             && c'.disk == (if e.num != 0 then WriteBack(c.disk, e) else c.disk) && n in c'.disk
             && c'.entries == Front(c.entries, v, Entry(e.id, n, 1, false, c'.disk[n]))
             && p' == p.(held := Taken(p.held, e.id, n))
    ensures Inv(c', p') && c'.disk[n] == p.disk[n]
  {
    var e := c.entries[v];
    assert EntryOk(c.disk, p, e);
    forall j | 0 <= j < |c.entries| && j != v
      ensures c.entries[j].num != n && EntryOk(c'.disk, p', c.entries[j])
    {
      assert EntryOk(c.disk, p, c.entries[j]);
    }
    assert StoredOk(c, p, n);
    FrontInv(c, p, c', p', v, Entry(e.id, n, 1, false, c'.disk[n]));
  }

  /** get_block into a buffer of its own. */
  lemma CreateInv(c: Cache, p: Plain, n: nat, c': Cache, p': Plain)
    requires Inv(c, p) && n in p.disk && !Cached(c.entries, n) && |c.entries| < BUFCACHE_MAX
    requires n in c.disk && c' == c.(entries := [Entry(|c.entries|, n, 1, false, c.disk[n])] + c.entries)
    requires p' == p.(held := Taken(p.held, |c.entries|, n))
    ensures Inv(c', p') && c.disk[n] == p.disk[n]
  {
    var k := |c.entries|;
    assert forall i :: 0 < i < |c'.entries| ==> c'.entries[i] == c.entries[i - 1];
    assert k !in p.held by {
      assert HeldOk(c, p, k);
    }
    assert StoredOk(c, p, n);
    forall i | 0 <= i < |c'.entries|
      ensures EntryOk(c'.disk, p', c'.entries[i])
    {
      if i > 0 {
        assert EntryOk(c.disk, p, c.entries[i - 1]);
      }
    }
    forall m
      ensures StoredOk(c', p', m)
    {
      assert StoredOk(c, p, m);
      var j := Lookup(c.entries, m);
      CachedIff(c'.entries, m);
      assert j < |c.entries| ==> c'.entries[j + 1] == c.entries[j] && c.entries[j] in c'.entries;
    }
    forall id
      ensures HeldOk(c', p', id)
    {
      assert HeldOk(c, p, id);
      var j := Position(c.entries, id);
      PositionIff(c'.entries, id);
      assert c'.entries[0] in c'.entries;
      assert j < |c.entries| ==> c'.entries[j + 1] == c.entries[j] && c.entries[j] in c'.entries;
    }
  }

  /** _load_block into a recycled buffer, the two writes of the list put together. */
  lemma RecycleShape(c: Cache, n: nat, v: nat)
    requires |c.entries| >= BUFCACHE_MAX && v == Victim(c.entries) && v < |c.entries|
    ensures var e := c.entries[v];
            var disk := if e.num != 0 then WriteBack(c.disk, e) else c.disk;
            Load(c, n) == if n in disk then (Cache(disk, Front(c.entries, v, Entry(e.id, n, 1, false, disk[n]))),
              Buffer(e.id))
                          else (Cache(disk, Front(c.entries, v, Entry(e.id, n, 0, false, e.data))), NoBlock)
  {
    var e := c.entries[v];
    var e1 := if e.num != 0 then e.(dirty := false) else e;
    FrontAt(c.entries, v, e1, 0);
    var disk := if e.num != 0 then WriteBack(c.disk, e) else c.disk;
    var loaded := if n in disk then Entry(e.id, n, 1, false, disk[n]) else Entry(e.id, n, 0, false, e.data);
    assert Front(c.entries, v, e1)[0 := loaded] == Front(c.entries, v, loaded);
  }

  /** get_block finds the block as it was last written, in a buffer that stays its own while it is held. */
  lemma GetRefines(c: Cache, p: Plain, n: nat, c': Cache, got: Got)
    requires Inv(c, p) && n in p.disk && (c', got) == Get(c, n)
    ensures match got
            case Buffer(id) =>
              Inv(c', p.(held := Taken(p.held, id, n))) && c'.entries != [] && c'.entries[0].id == id
              && c'.entries[0].data == p.disk[n]
            case NoBlock => false
            case Panic =>
              c' == c && !Cached(c.entries, n) && |c.entries| == BUFCACHE_MAX
              && forall i :: 0 <= i < BUFCACHE_MAX ==> c.entries[i].refs > 0
  {
    var i := Lookup(c.entries, n);
    if i < |c.entries| {
      assert EntryOk(c.disk, p, c.entries[i]);
      HitInv(c, p, n, i, c', p.(held := Taken(p.held, c.entries[i].id, n)));
    } else if |c.entries| < BUFCACHE_MAX {
      CreateInv(c, p, n, c', p.(held := Taken(p.held, |c.entries|, n)));
    } else {
      var v := Victim(c.entries);
      if v < |c.entries| {
        assert EntryOk(c.disk, p, c.entries[v]);
        RecycleShape(c, n, v);
        RecycleInv(c, p, n, v, c', p.(held := Taken(p.held, c.entries[v].id, n)));
      }
    }
  }

  // ----- sync -----

  /** One write-back, of a buffer left where it is. */
  lemma FlushInv(c: Cache, p: Plain, i: nat, c': Cache)
    requires Inv(c, p) && i < |c.entries|
    requires c' == Cache(WriteBack(c.disk, c.entries[i]), c.entries[i := c.entries[i].(dirty := false)])
    ensures Inv(c', p)
  {
    var e := c.entries[i];
    assert EntryOk(c.disk, p, e);
    forall j | 0 <= j < |c.entries| && j != i
      ensures EntryOk(c'.disk, p, c.entries[j])
    {
      assert EntryOk(c.disk, p, c.entries[j]);
    }
    UpdateInv(c, p, c', p, i, e.(dirty := false));
  }

  lemma {:induction false} SyncInv(c: Cache, p: Plain, i: nat)
    requires Inv(c, p) && i <= |c.entries|
    ensures var c' := SyncFrom(c, i);
            Inv(c', p) && |c'.entries| == |c.entries|
              && forall j :: 0 <= j < |c.entries| ==> c'.entries[j] == if j < i then c.entries[j]
              else c.entries[j].(dirty := false)
    decreases |c.entries| - i
  {
    if i < |c.entries| {
      var e := c.entries[i];
      var c1 := Cache(WriteBack(c.disk, e), c.entries[i := e.(dirty := false)]);
      FlushInv(c, p, i, c1);
      SyncInv(c1, p, i + 1);
    }
  }

  /** After a sync the device holds every block as last written, apart from writes the client has yet to announce. */
  lemma SyncAgrees(c: Cache, p: Plain, n: nat)
    requires Inv(c, p) && n in p.disk
    requires forall id :: id in p.held && p.held[id].num == n ==> !p.held[id].unmarked
    ensures var c' := SyncFrom(c, 0); Inv(c', p) && n in c'.disk && c'.disk[n] == p.disk[n]
  {
    SyncInv(c, p, 0);
    var c' := SyncFrom(c, 0);
    assert StoredOk(c', p, n);
    var j := Lookup(c'.entries, n);
    if j < |c'.entries| {
      assert EntryOk(c'.disk, p, c'.entries[j]);
    }
  }

  // ----- runs -----

  /** A step on a buffer the client holds. */
  lemma EntryStepInv(c: Cache, p: Plain, op: Op, i: nat, e: Entry, c': Cache, p': Plain)
    requires Inv(c, p) && Legal(p, op) && !op.Ask? && !op.Sync? && !op.Peek? && i == Position(c.entries, op.id)
    requires i < |c.entries|
    requires e == (match op case Write(_, data) => c.entries[i].(data := data)
             case Mark(_) => c.entries[i].(dirty := true) case Release(_, dirty) => Released(c.entries[i], dirty)
             case _ => c.entries[i])
    requires c' == c.(entries := c.entries[i := e]) && p' == PlainStep(p, op, NoBlock).0
    ensures Inv(c', p')
  {
    assert EntryOk(c.disk, p, c.entries[i]);
    forall j | 0 <= j < |c.entries| && j != i
      ensures EntryOk(c'.disk, p', c.entries[j])
    {
      assert EntryOk(c.disk, p, c.entries[j]);
    }
    UpdateInv(c, p, c', p', i, e);
  }

  /** The cache and the plain disk answer a client alike. */
  lemma StepRefines(c: Cache, p: Plain, op: Op)
    requires Inv(c, p) && Legal(p, op)
    ensures var (c', reply, got) := Step(c, op);
            PlainStep(p, op, got) == (PlainStep(p, op, got).0, reply) && Inv(c', PlainStep(p, op, got).0)
  {
    match op {
      case Ask(n) =>
        var (c', got) := Get(c, n);
        GetRefines(c, p, n, c', got);
      case Sync =>
        SyncInv(c, p, 0);
      case Peek(id) =>
        NeverRebound(c, p, id);
      case _ =>
        assert HeldOk(c, p, op.id);
        var (c', reply, got) := Step(c, op);
        var i := Position(c.entries, op.id);
        EntryStepInv(c, p, op, i, c'.entries[i], c', PlainStep(p, op, got).0);
    }
  }

  function After(c: Cache, ops: seq<Op>): Cache
    decreases |ops|
  {
    if ops == [] then c else After(Step(c, ops[0]).0, ops[1..])
  }

  function Replies(c: Cache, ops: seq<Op>): seq<Reply>
    decreases |ops|
  {
    if ops == [] then [] else [Step(c, ops[0]).1] + Replies(Step(c, ops[0]).0, ops[1..])
  }

  /** The buffers handed out along the way. */
  function Handed(c: Cache, ops: seq<Op>): (gots: seq<Got>)
    ensures |gots| == |ops|
    decreases |ops|
  {
    if ops == [] then [] else [Step(c, ops[0]).2] + Handed(Step(c, ops[0]).0, ops[1..])
  }

  function PlainAfter(p: Plain, ops: seq<Op>, gots: seq<Got>): Plain
    requires |gots| == |ops|
    decreases |ops|
  {
    if ops == [] then p else PlainAfter(PlainStep(p, ops[0], gots[0]).0, ops[1..], gots[1..])
  }

  function PlainReplies(p: Plain, ops: seq<Op>, gots: seq<Got>): seq<Reply>
    requires |gots| == |ops|
    decreases |ops|
  {
    if ops == [] then []
    else
      var (p', reply) := PlainStep(p, ops[0], gots[0]);
      [reply] + PlainReplies(p', ops[1..], gots[1..])
  }

  predicate LegalRun(p: Plain, ops: seq<Op>, gots: seq<Got>)
    requires |gots| == |ops|
    decreases |ops|
  {
    ops == [] || (Legal(p, ops[0]) && LegalRun(PlainStep(p, ops[0], gots[0]).0, ops[1..], gots[1..]))
  }

  lemma {:induction false} RunRefines(c: Cache, p: Plain, ops: seq<Op>)
    requires Inv(c, p) && LegalRun(p, ops, Handed(c, ops))
    ensures Replies(c, ops) == PlainReplies(p, ops, Handed(c, ops))
    ensures Inv(After(c, ops), PlainAfter(p, ops, Handed(c, ops)))
    decreases |ops|
  {
    if ops != [] {
      StepRefines(c, p, ops[0]);
      var (c', reply, got) := Step(c, ops[0]);
      assert Handed(c, ops)[1..] == Handed(c', ops[1..]);
      RunRefines(c', PlainStep(p, ops[0], got).0, ops[1..]);
    }
  }

  /** From an empty cache, no client that keeps to the rules can tell it from the bare disk. */
  lemma EveryRunRefines(disk: map<nat, Data>, ops: seq<Op>)
    requires LegalRun(Plain(disk, map[]), ops, Handed(Cache(disk, []), ops))
    ensures var c, p := Cache(disk, []), Plain(disk, map[]);
            Replies(c, ops) == PlainReplies(p, ops, Handed(c, ops))
            && Inv(After(c, ops), PlainAfter(p, ops, Handed(c, ops)))
  {
    RunRefines(Cache(disk, []), Plain(disk, map[]), ops);
  }

  /** In every state of a run, a buffer the client holds still holds the block it was asked for. */
  lemma NeverRebound(c: Cache, p: Plain, id: nat)
    requires Inv(c, p) && id in p.held
    ensures var i := Position(c.entries, id);
            i < |c.entries| && c.entries[i].num == p.held[id].num && c.entries[i].data == p.disk[p.held[id].num]
  {
    assert HeldOk(c, p, id);
    assert EntryOk(c.disk, p, c.entries[Position(c.entries, id)]);
  }

  // ----- where the rules are needed -----

  /** What a recycled buffer held is on the device afterwards unless it was a changed block 0. */
  lemma RecycleKeepsIff(c: Cache, n: nat, v: nat)
    requires |c.entries| >= BUFCACHE_MAX && v == Victim(c.entries) && v < |c.entries|
    requires var e := c.entries[v]; e.num in c.disk && (e.dirty || e.data == c.disk[e.num])
    ensures var e := c.entries[v]; var c' := Load(c, n).0;
            e.num in c'.disk && (c'.disk[e.num] == e.data <==> !(e.num == 0 && e.dirty && e.data != c.disk[0]))
  {
    RecycleShape(c, n, v);
  }

  lemma CachedStored(c: Cache, p: Plain, n: nat)
    requires Inv(c, p)
    ensures Cached(c.entries, n) ==> n in c.disk && n in p.disk
  {
    if Cached(c.entries, n) {
      assert EntryOk(c.disk, p, c.entries[Lookup(c.entries, n)]);
    }
  }

  /** Asking for a block the device cannot read keeps the cache in order exactly when it halts the kernel. */
  lemma GetKeepsInvIff(c: Cache, p: Plain, n: nat, c': Cache, got: Got)
    requires Inv(c, p) && (c', got) == Get(c, n)
    ensures Inv(c', if got.Buffer? then p.(held := Taken(p.held, got.id, n)) else p) <==> n in p.disk || got == Panic
  {
    CachedStored(c, p, n);
    if n in p.disk {
      GetRefines(c, p, n, c', got);
    } else if got != Panic {
      UnreadLeft(c, p, n);
      assert !EntryOk(c'.disk, p, c'.entries[0]);
    }
  }

  lemma UnreadLeft(c: Cache, p: Plain, n: nat)
    requires Inv(c, p) && n !in p.disk && Get(c, n).1 != Panic
    ensures var (c', got) := Get(c, n); got == NoBlock && c'.entries != [] && c'.entries[0].num == n && n !in c'.disk
  {
    CachedStored(c, p, n);
    if |c.entries| == BUFCACHE_MAX {
      var v := Victim(c.entries);
      assert EntryOk(c.disk, p, c.entries[v]);
      RecycleShape(c, n, v);
    }
  }

  /** After such a failure the next get_block of the same block succeeds, and hands out whatever the buffer held
      before. */
  lemma UnreadIsHandedOut(c: Cache, p: Plain, n: nat)
    requires Inv(c, p) && n !in p.disk && Get(c, n).1 == NoBlock
    ensures var c' := Get(c, n).0; var (c'', got) := Get(c', n);
            got.Buffer? && c''.entries != [] && c''.entries[0].id == got.id && c'.entries != []
              && c''.entries[0].data == c'.entries[0].data
  {
    UnreadLeft(c, p, n);
  }

  // ----- the code -----

  lemma {:induction false} PositionFound(es: seq<Entry>, k: nat)
    requires Distinct(es) && k < |es|
    ensures Position(es, es[k].id) == k
  {
  }

  /** struct buf. */
  class Buf {
    const id: nat
    var num: nat
    var refcount: int
    var dirty: bool
    var block: Data

    constructor (id: nat)
      ensures this.id == id && num == 0 && refcount == 0 && !dirty && block == []
    {
      this.id, num, refcount, dirty, block := id, 0, 0, false, [];
    }

    ghost predicate Shows(e: Entry)
      reads this
    {
      id == e.id && num == e.num && refcount == e.refs && dirty == e.dirty && block == e.data
    }
  }

  /** struct bufcache and its device; `c` is what the two amount to. */
  class BlockCache {
    var disk: map<nat, Data>
    var blocks: seq<Buf>
    var numEntries: nat
    ghost var c: Cache

    ghost predicate Valid()
      reads this, blocks
    {
      && numEntries == |blocks| == |c.entries| && disk == c.disk
      && (forall i :: 0 <= i < |blocks| ==> blocks[i].Shows(c.entries[i]))
      && (forall i, j :: 0 <= i < j < |blocks| ==> blocks[i] != blocks[j])
    }

    constructor (disk: map<nat, Data>)
      ensures Valid() && c == Cache(disk, []) && blocks == []
    {
      this.disk, blocks, numEntries, c := disk, [], 0, Cache(disk, []);
    }

    method MoveToFront(i: nat)
      requires Valid() && i < |blocks|
      modifies this
      ensures Valid() && c == old(c).(entries := Front(old(c.entries), i, old(c.entries[i])))
      ensures blocks == [old(blocks[i])] + old(blocks[..i]) + old(blocks[i + 1..])
    {
      blocks := [blocks[i]] + blocks[..i] + blocks[i + 1..];
      c := c.(entries := Front(c.entries, i, c.entries[i]));
    }

    /** _write_entry. */
    method WriteEntry(i: nat)
      requires Valid() && i < |blocks|
      modifies this, blocks[i]
      ensures Valid() && blocks == old(blocks)
      ensures c == Cache(WriteBack(old(c.disk), old(c.entries[i])),
              old(c.entries)[i := old(c.entries[i]).(dirty := false)])
    {
      ghost var e := c.entries[i];
      if blocks[i].dirty {
        disk := disk[blocks[i].num := blocks[i].block];
        blocks[i].dirty := false;
      }
      c := Cache(disk, c.entries[i := e.(dirty := false)]);
    }

    /** _create_entry. */
    method CreateEntry()
      requires Valid()
      modifies this
      ensures Valid() && blocks != [] && fresh(blocks[0]) && blocks[1..] == old(blocks)
      ensures c == old(c).(entries := [Entry(|old(c.entries)|, 0, 0, false, [])] + old(c.entries))
    {
      var buf := new Buf(|blocks|);
      blocks := [buf] + blocks;
      numEntries := numEntries + 1;
      c := c.(entries := [Entry(|c.entries|, 0, 0, false, [])] + c.entries);
    }

    /** The end of _find_free_entry: write back what is to be recycled and move it to the front. */
    method Recycle(v: nat)
      requires Valid() && v < |blocks|
      modifies this, blocks[v]
      ensures Valid() && blocks == [old(blocks[v])] + old(blocks[..v]) + old(blocks[v + 1..])
      ensures var e := old(c.entries[v]);
              c == if e.num != 0 then Cache(WriteBack(old(c.disk), e), Front(old(c.entries), v, e.(dirty := false)))
                   else old(c).(entries := Front(old(c.entries), v, e))
    {
      if blocks[v].num != 0 {
        WriteEntry(v);
      }
      MoveToFront(v);
    }

    /** _find_free_entry. */
    method FindFreeEntry() returns (found: bool)
      requires Valid()
      modifies this, blocks
      ensures Valid() && (forall b :: b in blocks ==> b in old(blocks) || fresh(b))
      ensures found <==> FindFree(old(c)).Some?
      ensures c == if found then FindFree(old(c)).value else old(c)
      ensures found ==> blocks != []
      ensures !found ==> blocks == old(blocks)
    {
      var last: int := |blocks| - 1;
      while last >= 0 && blocks[last].refcount > 0
        invariant -1 <= last < |blocks|
        invariant VictimBelow(c.entries, last + 1) == Victim(c.entries)
      {
        last := last - 1;
      }
      if numEntries < BUFCACHE_MAX {
        CreateEntry();
        return true;
      }
      if last < 0 {
        return false;
      }
      Recycle(last);
      return true;
    }

    /** _load_block. */
    method LoadBlock(n: nat) returns (got: Got, buf: Buf?)
      requires Valid()
      modifies this, blocks
      ensures Valid() && (c, got) == Load(old(c), n) && (forall b :: b in blocks ==> b in old(blocks) || fresh(b))
      ensures got.Buffer? ==> blocks != [] && buf == blocks[0] && blocks[0].id == got.id
    {
      var found := FindFreeEntry();
      if !found {
        return Panic, null;
      }
      var entry := blocks[0];
      assert entry in blocks;
      entry.refcount, entry.num, entry.dirty := 1, n, false;
      if n !in disk {
        entry.refcount := 0;
        c := c.(entries := c.entries[0 := Entry(entry.id, n, 0, false, entry.block)]);
        return NoBlock, null;
      }
      entry.block := disk[n];
      c := c.(entries := c.entries[0 := Entry(entry.id, n, 1, false, disk[n])]);
      return Buffer(entry.id), entry;
    }

    method GetBlock(n: nat) returns (got: Got, buf: Buf?)
      requires Valid()
      modifies this, blocks
      ensures Valid() && (c, got) == Get(old(c), n) && (forall b :: b in blocks ==> b in old(blocks) || fresh(b))
      ensures got.Buffer? ==> blocks != [] && buf == blocks[0] && blocks[0].id == got.id
    {
      var i := 0;
      while i < |blocks|
        invariant 0 <= i <= |blocks| && LookupFrom(c.entries, n, i) == Lookup(c.entries, n)
      {
        if blocks[i].num == n {
          ghost var e := c.entries[i];
          blocks[i].refcount := blocks[i].refcount + 1;
          c := c.(entries := c.entries[i := e.(refs := e.refs + 1)]);
          MoveToFront(i);
          return Buffer(blocks[0].id), blocks[0];
        }
        i := i + 1;
      }
      got, buf := LoadBlock(n);
    }

    /** release_block. */
    method ReleaseBlock(buf: Buf, dirty: bool, ghost k: nat)
      requires Valid() && k < |blocks| && blocks[k] == buf && Distinct(c.entries)
      modifies this`c, buf
      ensures Valid() && c == Update(old(c), buf.id, Released(old(c.entries[k]), dirty))
    {
      ghost var e := c.entries[k];
      PositionFound(c.entries, k);
      if dirty {
        buf.dirty := true;
      }
      buf.refcount := buf.refcount - 1;
      if buf.refcount < 0 {
        buf.refcount := 0;
      }
      c := c.(entries := c.entries[k := Released(e, dirty)]);
    }

    method Sync()
      requires Valid()
      modifies this, blocks
      ensures Valid() && blocks == old(blocks) && c == SyncFrom(old(c), 0)
    {
      var i := 0;
      while i < |blocks|
        invariant Valid() && blocks == old(blocks) && 0 <= i <= |blocks| && SyncFrom(c, i) == SyncFrom(old(c), 0)
      {
        WriteEntry(i);
        i := i + 1;
      }
    }
  }
}
