/** Sequences of flags, as kept in the allocation bitmaps. */
module Flags {
  /** The first clear flag from `i` on, or |bits|. */
  function ClearFrom(bits: seq<bool>, i: nat): (k: nat)
    requires i <= |bits|
    ensures i <= k <= |bits| && (k < |bits| ==> !bits[k])
    ensures forall j :: i <= j < k ==> bits[j]
    decreases |bits| - i
  {
    if i == |bits| || !bits[i] then i else ClearFrom(bits, i + 1)
  }

  /** How many flags are clear. */
  function Free(bits: seq<bool>): nat {
    if bits == [] then 0 else Free(bits[..|bits| - 1]) + if bits[|bits| - 1] then 0 else 1
  }

  lemma {:induction false} FreeUpdate(bits: seq<bool>, k: nat, value: bool)
    requires k < |bits| && bits[k] != value
    ensures Free(bits[k := value]) == Free(bits) + if value then -1 else 1
  {
    var n := |bits| - 1;
    if k < n {
      FreeUpdate(bits[..n], k, value);
      assert bits[k := value][..n] == bits[..n][k := value];
    } else {
      assert bits[k := value][..n] == bits[..n];
    }
  }

  lemma {:induction false} FreeNone(bits: seq<bool>)
    ensures Free(bits) == 0 <==> forall k :: 0 <= k < |bits| ==> bits[k]
  {
    if bits != [] {
      var n := |bits| - 1;
      FreeNone(bits[..n]);
      assert (forall k :: 0 <= k < |bits| ==> bits[k]) <==> bits[n] && forall k :: 0 <= k < n ==> bits[..n][k];
    }
  }
}
