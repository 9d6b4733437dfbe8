/**
 * The allocation bitmaps of a Minix file system (bitmaps.h): blocks of bytes, each holding eight flags, searched and
 * changed a byte at a time, as one flat sequence of flags.
 */
module MinixBitmap {
  import opened Common
  import opened Flags

  const ZONE_SIZE := 1024
  const BITS_PER_ZONE := 8192

  type Block = b: seq<bv8> | |b| == 1024 witness seq(1024, _ => 0)

  // ----- one byte -----

  function Mask(k: nat): (m: bv8)
    requires k < 8
  {
    if k == 0 then 0x01 else if k == 1 then 0x02 else if k == 2 then 0x04 else if k == 3 then 0x08
    else if k == 4 then 0x10 else if k == 5 then 0x20 else if k == 6 then 0x40 else 0x80
  }

  predicate BitSet(b: bv8, k: nat)
    requires k < 8
  {
    Mask(k) & b != 0
  }

  /** Flag `k` of a byte is its bit of value 2 to the `k`. */
  lemma BitSetIs(b: bv8, k: nat)
    requires k < 8
    ensures BitSet(b, k) <==> (b >> k) & 1 == 1
  {
  }

  lemma SetBit(b: bv8, k: nat, j: nat)
    requires k < 8 && j < 8
    ensures BitSet(b | Mask(k), j) <==> j == k || BitSet(b, j)
  {
  }

  lemma ClearBit(b: bv8, k: nat, j: nat)
    requires k < 8 && j < 8
    ensures BitSet(b & !Mask(k), j) <==> j != k && BitSet(b, j)
  {
  }

  lemma AllSetIff(b: bv8)
    ensures b == 0xFF <==> forall k :: 0 <= k < 8 ==> BitSet(b, k)
  {
    if forall k :: 0 <= k < 8 ==> BitSet(b, k) {
      assert BitSet(b, 0) && BitSet(b, 1) && BitSet(b, 2) && BitSet(b, 3) && BitSet(b, 4) && BitSet(b, 5)
             && BitSet(b, 6) && BitSet(b, 7);
    }
  }

  // ----- the flat view -----

  /** Flag `k` of the bitmap. */
  predicate Flag(blocks: seq<Block>, k: nat)
    requires k < |blocks| * BITS_PER_ZONE
  {
    BitSet(blocks[k / BITS_PER_ZONE][k / 8 % ZONE_SIZE], k % 8)
  }

  /** That is a bit of byte number `k / 8`, counting through the blocks. */
  lemma FlagIs(blocks: seq<Block>, zone: nat, i: nat, bit: nat)
    requires zone < |blocks| && i < ZONE_SIZE && bit < 8
    ensures zone * BITS_PER_ZONE + i * 8 + bit < |blocks| * BITS_PER_ZONE
    ensures Flag(blocks, zone * BITS_PER_ZONE + i * 8 + bit) <==> (blocks[zone][i] >> bit) & 1 == 1
  {
    NumberParts(zone, i, bit);
    BitSetIs(blocks[zone][i], bit);
  }

  function Flat(blocks: seq<Block>): (bits: seq<bool>)
    ensures |bits| == |blocks| * BITS_PER_ZONE
  {
    seq(|blocks| * BITS_PER_ZONE, k requires 0 <= k < |blocks| * BITS_PER_ZONE => Flag(blocks, k))
  }

  function Number(zone: nat, i: nat, bit: nat): nat {
    bit + i * 8 + zone * BITS_PER_ZONE
  }

  lemma NumberParts(zone: nat, i: nat, bit: nat)
    requires i < ZONE_SIZE && bit < 8
    ensures var k := Number(zone, i, bit); k / BITS_PER_ZONE == zone && k / 8 % ZONE_SIZE == i && k % 8 == bit
  {
  }

  lemma PartsNumber(k: nat)
    ensures k == Number(k / BITS_PER_ZONE, k / 8 % ZONE_SIZE, k % 8)
  {
  }

  /** A byte with one flag changed, put back in its place, changes that flag of the bitmap. */
  lemma FlatUpdate(blocks: seq<Block>, zone: nat, i: nat, bit: nat, b: bv8, value: bool)
    requires zone < |blocks| && i < ZONE_SIZE && bit < 8
    requires forall j :: 0 <= j < 8 ==> (BitSet(b, j) <==> if j == bit then value else BitSet(blocks[zone][i], j))
    ensures Number(zone, i, bit) < |Flat(blocks)|
    ensures Flat(blocks[zone := blocks[zone][i := b]]) == Flat(blocks)[Number(zone, i, bit) := value]
  {
    var blocks' := blocks[zone := blocks[zone][i := b]];
    NumberParts(zone, i, bit);
    forall k | 0 <= k < |Flat(blocks)|
      ensures Flat(blocks')[k] == Flat(blocks)[Number(zone, i, bit) := value][k]
    {
      PartsNumber(k);
    }
  }

  // ----- allocating and freeing -----

  /** bit_alloc on the flat view: the flags afterwards, and the number allocated, 0 for none. */
  function AllocBit(bits: seq<bool>): (seq<bool>, nat) {
    var k := ClearFrom(bits, 0);
    if k == |bits| then (bits, 0) else (bits[k := true], k)
  }

  function Cleared(bits: seq<bool>, k: nat): (r: seq<bool>)
    ensures |r| == |bits|
  {
    if k < |bits| then bits[k := false] else bits
  }

  /**
   bit_free on the flat view. The byte is looked for in its block by a number
   that is counted from the start of the bitmap: None if that is past the end
   of the block, in which case memory behind the buffer is written.
   */
  function FreeBit(bits: seq<bool>, k: nat): Option<seq<bool>> {
    var zone, i, bit := k / 8 / ZONE_SIZE, k / 8, k % 8;
    if i < ZONE_SIZE then Some(Cleared(bits, Number(zone, i, bit))) else None
  }

  /** An allocation takes a clear flag as long as there is one, and no more than that. */
  lemma AllocTakesOne(bits: seq<bool>)
    requires bits != [] && bits[0]
    ensures var (bits', k) := AllocBit(bits);
            if k == 0 then bits' == bits && Free(bits) == 0
               else k < |bits| && !bits[k] && bits' == bits[k := true] && Free(bits') == Free(bits) - 1
  {
    FreeNone(bits);
    var k := ClearFrom(bits, 0);
    if k < |bits| {
      FreeUpdate(bits, k, true);
    }
  }

  /** Only the flags of the first block have their byte below the size of a block. */
  lemma FirstBlock(k: nat)
    ensures k / 8 < ZONE_SIZE <==> k < BITS_PER_ZONE
    ensures k < BITS_PER_ZONE ==> k / 8 / ZONE_SIZE == 0 && Number(0, k / 8, k % 8) == k
  {
  }

  /** bit_free frees the flag it is given if that is in the first block, and otherwise writes past the end of
      its buffer. */
  lemma FreeBitIff(bits: seq<bool>, k: nat)
    requires k < |bits|
    ensures FreeBit(bits, k) == if k < BITS_PER_ZONE then Some(bits[k := false]) else None
  {
    FirstBlock(k);
  }

  /** What bit_alloc hands out bit_free takes back if and only if it is in the first block. */
  lemma FreeUndoesAllocIff(bits: seq<bool>)
    requires bits != [] && bits[0]
    ensures var (bits', k) := AllocBit(bits); k != 0 ==> (FreeBit(bits', k) == Some(bits) <==> k < BITS_PER_ZONE)
  {
    AllocTakesOne(bits);
    var (bits', k) := AllocBit(bits);
    if k != 0 {
      FreeBitIff(bits', k);
      assert bits[k := true][k := false] == bits;
    }
  }

  /** The flags of byte `i` of block `zone`, up to the first clear one. */
  lemma {:induction false} ByteFlags(blocks: seq<Block>, zone: nat, i: nat, bit: nat)
    requires zone < |blocks| && i < ZONE_SIZE && bit <= 8 && forall j :: 0 <= j < bit ==> BitSet(blocks[zone][i], j)
    ensures var bits := Flat(blocks);
            && Number(zone, i, bit) <= |bits| && ClearFrom(bits, Number(zone, i, 0)) == ClearFrom(bits,
            Number(zone, i, bit))
            && (bit < 8 ==> Number(zone, i, bit) < |bits| && bits[Number(zone, i, bit)] == BitSet(blocks[zone][i], bit))
  {
    if bit < 8 {
      NumberParts(zone, i, bit);
    }
    if bit > 0 {
      ByteFlags(blocks, zone, i, bit - 1);
    }
  }

  /** A byte without a clear flag is skipped. */
  lemma FullByte(blocks: seq<Block>, zone: nat, i: nat)
    requires zone < |blocks| && i < ZONE_SIZE && blocks[zone][i] == 0xFF
    ensures Number(zone, i + 1, 0) <= |Flat(blocks)|
    ensures ClearFrom(Flat(blocks), Number(zone, i, 0)) == ClearFrom(Flat(blocks), Number(zone, i + 1, 0))
  {
    AllSetIff(blocks[zone][i]);
    ByteFlags(blocks, zone, i, 8);
  }

  class Bitmap {
    var blocks: seq<Block>

    constructor (blocks: seq<Block>)
      ensures this.blocks == blocks
    {
      this.blocks := blocks;
    }

    method BitAlloc() returns (k: nat)
      modifies this
      ensures |blocks| == old(|blocks|) && (Flat(blocks), k) == AllocBit(old(Flat(blocks)))
    {
      ghost var bits := Flat(blocks);
      for zone := 0 to |blocks|
        invariant blocks == old(blocks) && ClearFrom(bits, 0) == ClearFrom(bits, Number(zone, 0, 0))
      {
        for i := 0 to ZONE_SIZE
          invariant blocks == old(blocks) && Number(zone, i, 0) <= |bits|
          invariant ClearFrom(bits, 0) == ClearFrom(bits, Number(zone, i, 0))
        {
          if blocks[zone][i] != 0xFF {
            var bit := ClearIn(blocks[zone][i]);
            ByteFlags(blocks, zone, i, bit);
            TakeFlag(zone, i, bit);
            return Number(zone, i, bit);
          }
          FullByte(blocks, zone, i);
        }
      }
      return 0;
    }

    static method ClearIn(b: bv8) returns (bit: nat)
      requires b != 0xFF
      ensures bit < 8 && !BitSet(b, bit) && forall j :: 0 <= j < bit ==> BitSet(b, j)
    {
      AllSetIff(b);
      bit := 0;
      while bit < 8 && BitSet(b, bit)
        invariant bit <= 8 && forall j :: 0 <= j < bit ==> BitSet(b, j)
      {
        bit := bit + 1;
      }
    }

    method TakeFlag(zone: nat, i: nat, bit: nat)
      requires zone < |blocks| && i < ZONE_SIZE && bit < 8
      modifies this
      ensures |blocks| == old(|blocks|) && Number(zone, i, bit) < old(|Flat(blocks)|)
      ensures Flat(blocks) == old(Flat(blocks))[Number(zone, i, bit) := true]
    {
      var b := blocks[zone][i] | Mask(bit);
      forall j: nat | j < 8
        ensures BitSet(b, j) <==> if j == bit then true else BitSet(blocks[zone][i], j)
      {
        SetBit(blocks[zone][i], bit, j);
      }
      FlatUpdate(blocks, zone, i, bit, b, true);
      blocks := blocks[zone := blocks[zone][i := b]];
    }

    method DropFlag(zone: nat, i: nat, bit: nat)
      requires zone < |blocks| && i < ZONE_SIZE && bit < 8
      modifies this
      ensures |blocks| == old(|blocks|) && Number(zone, i, bit) < old(|Flat(blocks)|)
      ensures Flat(blocks) == old(Flat(blocks))[Number(zone, i, bit) := false]
    {
      var b := blocks[zone][i] & !Mask(bit);
      forall j: nat | j < 8
        ensures BitSet(b, j) <==> if j == bit then false else BitSet(blocks[zone][i], j)
      {
        ClearBit(blocks[zone][i], bit, j);
      }
      FlatUpdate(blocks, zone, i, bit, b, false);
      blocks := blocks[zone := blocks[zone][i := b]];
    }

    /** bit_free: false if it writes behind its buffer, after which nothing is known. */
    method BitFree(bitnum: nat) returns (inside: bool)
      requires blocks != []
      modifies this
      ensures inside <==> FreeBit(old(Flat(blocks)), bitnum).Some?
      ensures inside ==> |blocks| == old(|blocks|) && FreeBit(old(Flat(blocks)), bitnum) == Some(Flat(blocks))
    {
      var zone, i, bit := bitnum / 8 / ZONE_SIZE, bitnum / 8, bitnum % 8;
      FirstBlock(bitnum);
      inside := i < ZONE_SIZE;
      if inside {
        DropFlag(zone, i, bit);
      } else {
        blocks := *;
      }
    }
  }
}
