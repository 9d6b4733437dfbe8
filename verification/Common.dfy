/** Types and small facts shared by the subsystem models. */
module Common {
  datatype Option<+T> = None | Some(value: T)

  type byte = b: int | 0 <= b < 0x100

  const WORD32 := 0x1_0000_0000

  function Min(a: int, b: int): (m: int)
    ensures m <= a && m <= b && (m == a || m == b)
  {
    if a < b then a else b
  }

  // ----- byte sequences and positions in them -----

  function Zeros(n: nat): (z: seq<byte>)
    ensures |z| == n && forall i :: 0 <= i < n ==> z[i] == 0
  {
    seq(n, _ => 0)
  }

  /** `bytes` written over `b` from `off` on. */
  function Overwrite(b: seq<byte>, off: nat, bytes: seq<byte>): (b': seq<byte>)
    requires off + |bytes| <= |b|
    ensures |b'| == |b|
    ensures forall i :: 0 <= i < |b| ==> b'[i] == if off <= i < off + |bytes| then bytes[i - off] else b[i]
  {
    b[..off] + bytes + b[off + |bytes|..]
  }

  lemma Assoc(a: seq<byte>, b: seq<byte>, c: seq<byte>)
    ensures a + (b + c) == a + b + c
  {
  }

  datatype Whence = Set | Cur | End | Other

  /** Where a seek by a 32-bit unsigned offset lands in a sequence of `size` bytes: None for EINVAL. */
  function SeekTarget(size: nat, pos: nat, offset: nat, whence: Whence): Option<nat> {
    if whence.Other? then None
    else
      var p := match whence case Cur => (pos + offset) % WORD32 case End => (size + offset) % WORD32 case _ => offset;
      Some(if p > size then size else p)
  }

  /**
   A seek lands where it was meant to if that is in the sequence, and
   otherwise, before the start as well as after the end, at the end.
   */
  lemma SeekLands(size: nat, pos: nat, offset: int, whence: Whence)
    requires size < WORD32 / 2 && pos < WORD32 / 2 && -WORD32 / 2 <= offset < WORD32 / 2 && !whence.Other?
    ensures var target := (match whence case Cur => pos case End => size case _ => 0) + offset;
            SeekTarget(size, pos, offset % WORD32, whence) == Some(if 0 <= target <= size then target else size)
  {
  }

  // ----- products and quotients -----

  lemma MulMonotone(a: int, b: int, d: nat)
    requires a <= b
    ensures a * d <= b * d
  {
  }

  /** A larger multiplier is at least one whole `d` larger. */
  lemma StrictMul(a: int, b: int, d: nat)
    ensures a < b ==> a * d + d <= b * d
  {
    if a < b {
      MulMonotone(a + 1, b, d);
    }
  }

  lemma DivModUnique(x: int, d: int, q: int, r: int)
    requires d > 0 && 0 <= r < d && x == q * d + r
    ensures x / d == q && x % d == r
  {
    StrictMul(x / d, q, d);
    StrictMul(q, x / d, d);
  }

  lemma DivDiv(x: nat, c: nat, t: nat)
    requires c > 0 && t > 0
    ensures t * c > 0 && (x / c) / t == x / (t * c)
  {
    var f := x / c;
    var q, s := f / t, f % t;
    calc {
      x;
      f * c + x % c;
      (q * t + s) * c + x % c;
      q * (t * c) + (s * c + x % c);
    }
    MulMonotone(s + 1, t, c);
    MulMonotone(1, t, c);
    DivModUnique(x, t * c, q, s * c + x % c);
  }

  /** Two multiples of `c` are a whole `c` apart. */
  lemma MultipleGap(a: nat, b: nat, c: nat)
    requires c > 0 && a % c == 0 && b % c == 0 && a < b
    ensures a + c <= b
  {
    var q, n := a / c, b / c;
    assert a == q * c && b == n * c;
    StrictMul(q, n, c);
    StrictMul(n, q, c);
  }

  lemma SumMultiple(a: int, b: int, c: nat)
    requires c > 0 && a % c == 0 && b % c == 0
    ensures (a + b) % c == 0 && (a - b) % c == 0
  {
    DivModUnique(a + b, c, a / c + b / c, 0);
    DivModUnique(a - b, c, a / c - b / c, 0);
  }

  lemma MultipleOfMultiple(a: nat, c: nat, d: nat)
    requires c > 0 && d > 0 && a % c == 0 && c % d == 0
    ensures a % d == 0
  {
    var k, n := a / c, c / d;
    assert a == k * c && c == n * d;
    assert a == k * (n * d) == (k * n) * d;
    DivModUnique(a, d, k * n, 0);
  }

  lemma PredQuotient(x: nat, c: nat)
    requires c > 0 && x % c != 0
    ensures x > 0 && (x - 1) / c == x / c && (x - 1) % c == x % c - 1
  {
    DivModUnique(x - 1, c, x / c, x % c - 1);
  }

  lemma ScaledMultiple(t: nat, d: nat, c: nat)
    requires c > 0 && t > 0 && d % c == 0
    ensures (t * d) % c == 0 && t * d >= d
  {
    var q := d / c;
    assert t * d == t * (q * c) == (t * q) * c;
    DivModUnique(t * d, c, t * q, 0);
    MulMonotone(1, t, d);
  }

  /** From a multiple of `c`, the numbers with its quotient are the next `c`. */
  lemma QuotientInterval(va: nat, x: nat, c: nat)
    requires c > 0 && va % c == 0
    ensures x / c == va / c <==> va <= x < va + c
    ensures va <= x < va + c ==> x % c == x - va
  {
    if va <= x < va + c {
      DivModUnique(x, c, va / c, x - va);
    }
  }

  lemma AddedMultiples(x: nat, c: nat, d: nat, t: nat)
    requires c > 0 && t > 0 && d % c == 0
    ensures ((x + t * d) / c) % t == (x / c) % t
  {
    var q, f := d / c, x / c;
    assert t * d == (t * q) * c by {
      assert d == q * c;
    }
    DivModUnique(x + t * d, c, f + t * q, x % c) by {
      assert x + t * d == f * c + x % c + (t * q) * c == (f + t * q) * c + x % c;
    }
    DivModUnique(f + t * q, t, f / t + q, f % t) by {
      assert f + t * q == (f / t) * t + f % t + q * t == (f / t + q) * t + f % t;
    }
  }
}
