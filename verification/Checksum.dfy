/**
 * The Internet checksum (ipv4.c, tcp.c; sections 1 and 2 of RFC 1071): the ones'-complement sum of
 * the 16-bit words of a buffer, taken in a 32-bit accumulator and folded once at the end.
 */
module Checksum {
  import opened Common

  const ONES := 0xFFFF

  /** Ones'-complement addition of 16-bit words: a carry out of the top comes in at the bottom. */
  function OnesAdd(a: nat, b: nat): nat {
    if a + b > ONES then a + b - ONES else a + b
  }

  /** The 16-bit number that a sum comes to: 0 only for 0, else 1 to 0xFFFF. */
  function Folded(s: nat): (r: nat)
    ensures r <= ONES && (r == 0 <==> s == 0)
  {
    if s == 0 then 0 else (s - 1) % ONES + 1
  }

  lemma FoldedPeriod(s: nat)
    requires s > 0
    ensures Folded(s + ONES) == Folded(s)
  {
    DivModUnique(s - 1 + ONES, ONES, (s - 1) / ONES + 1, (s - 1) % ONES);
  }

  lemma FoldedSmall(s: nat)
    requires s <= ONES
    ensures Folded(s) == s
  {
    if s > 0 {
      DivModUnique(s - 1, ONES, 0, s - 1);
    }
  }

  /** Folding commutes with ones'-complement addition of another word. */
  lemma FoldedAdd(s: nat, w: nat)
    requires w <= ONES
    ensures Folded(s + w) == OnesAdd(Folded(s), w)
  {
    if s == 0 {
      FoldedSmall(w);
    } else {
      var q, r := (s - 1) / ONES, (s - 1) % ONES;
      if r + w < ONES {
        DivModUnique(s + w - 1, ONES, q, r + w);
      } else if r + w < 2 * ONES {
        DivModUnique(s + w - 1, ONES, q + 1, r + w - ONES);
      }
    }
  }

  // ----- words of a buffer -----

  /** Word `i`, first byte high; the missing second byte of a last odd one is 0. */
  function WordAt(data: seq<byte>, i: nat): (w: nat)
    requires 2 * i < |data|
    ensures w <= ONES
  {
    var high: int, low: int := data[2 * i], if 2 * i + 1 < |data| then data[2 * i + 1] else 0;
    high * 0x100 + low
  }

  /** The plain sum of the first `n` words. */
  function Total(data: seq<byte>, n: nat): (t: nat)
    requires 2 * n <= |data| + 1
    ensures t <= n * ONES
  {
    if n == 0 then 0 else Total(data, n - 1) + WordAt(data, n - 1)
  }

  /** The same in ones'-complement, from `start` on. */
  function OnesTotal(data: seq<byte>, n: nat, start: nat): nat
    requires 2 * n <= |data| + 1
  {
    if n == 0 then start else OnesAdd(OnesTotal(data, n - 1, start), WordAt(data, n - 1))
  }

  lemma {:induction false} TotalIsOnes(data: seq<byte>, n: nat, start: nat)
    requires 2 * n <= |data| + 1
    ensures Folded(start + Total(data, n)) == OnesTotal(data, n, Folded(start))
  {
    if n > 0 {
      TotalIsOnes(data, n - 1, start);
      FoldedAdd(start + Total(data, n - 1), WordAt(data, n - 1));
    }
  }

  /** How many words a buffer has, counting a last odd byte. */
  function Words(data: seq<byte>): nat {
    (|data| + 1) / 2
  }

  function Sum(data: seq<byte>): nat {
    Total(data, Words(data))
  }

  /** The sum of those of the first `n` bytes whose place is even, or odd. */
  function BytesAt(data: seq<byte>, n: nat, parity: nat): nat
    requires n <= |data|
  {
    if n == 0 then 0
    else
      var b: int := data[n - 1];
      BytesAt(data, n - 1, parity) + if (n - 1) % 2 == parity then b else 0
  }

  /** First bytes of words weigh 0x100, second ones 1, and a last odd byte is the first of its word. */
  lemma SumOverBytes(data: seq<byte>)
    ensures Sum(data) == 0x100 * BytesAt(data, |data|, 0) + BytesAt(data, |data|, 1)
  {
    TotalOverBytes(data, Words(data));
  }

  lemma {:induction false} TotalOverBytes(data: seq<byte>, n: nat)
    requires 2 * n <= |data| + 1
    ensures var m := Min(2 * n, |data|); Total(data, n) == 0x100 * BytesAt(data, m, 0) + BytesAt(data, m, 1)
  {
    if n > 0 {
      TotalOverBytes(data, n - 1);
      var first := 2 * (n - 1);
      assert first % 2 == 0 && (first + 1) % 2 == 1;
      assert BytesAt(data, first + 1, 0) == BytesAt(data, first, 0) + data[first];
    }
  }

  /** A buffer of odd length counts as one with a byte of zero behind it (section 1 of RFC 1071). */
  lemma OddLengthPadded(data: seq<byte>)
    requires |data| % 2 == 1
    ensures Sum(data) == Sum(data + [0])
  {
    TotalPadded(data, Words(data));
  }

  lemma {:induction false} TotalPadded(data: seq<byte>, n: nat)
    requires 2 * n <= |data| + 1 && |data| % 2 == 1
    ensures Total(data, n) == Total(data + [0], n)
  {
    if n > 0 {
      TotalPadded(data, n - 1);
    }
  }

  // ----- the code -----

  /** The end of ipv4_calculate_checksum: add the upper half to the lower, and once more if that carries. */
  function Fold(checksum: nat): nat {
    var low := checksum % 0x1_0000 + checksum / 0x1_0000;
    (if low / 0x1_0000 != 0 then low + 1 else low) % 0x1_0000
  }

  lemma FoldedHalves(hi: nat, lo: nat)
    requires hi <= ONES && lo <= ONES
    ensures Folded(hi * 0x1_0000 + lo) == OnesAdd(hi, lo)
  {
    var c := hi * 0x1_0000 + lo;
    assert c == hi * ONES + (hi + lo);
    if c > 0 {
      if hi + lo <= ONES {
        DivModUnique(c - 1, ONES, hi, hi + lo - 1);
      } else {
        DivModUnique(c - 1, ONES, hi + 1, hi + lo - 1 - ONES);
      }
    }
  }

  /** One fold and one increment are enough for any 32-bit sum. */
  lemma FoldComplete(checksum: nat)
    requires checksum < WORD32
    ensures Fold(checksum) == Folded(checksum)
  {
    FoldedHalves(checksum / 0x1_0000, checksum % 0x1_0000);
  }

  /** The loop of ipv4_calculate_checksum: no sum of a buffer under 64K overflows 32 bits. */
  method Accumulate(data: seq<byte>, start: nat) returns (checksum: nat)
    requires |data| < 0x1_0000 && start <= 6 * ONES
    ensures checksum == start + Sum(data) < WORD32
  {
    checksum := start;
    var i := 0;
    while i < |data| / 2
      invariant 0 <= i <= |data| / 2 && checksum == start + Total(data, i)
    {
      var high: int, low: int := data[2 * i], data[2 * i + 1];
      checksum := (checksum + (high * 0x100 + low)) % WORD32;
      i := i + 1;
    }
    if |data| % 2 == 1 {
      var last: int := data[|data| - 1];
      checksum := (checksum + last * 0x100) % WORD32;
    }
  }

  /** ipv4_calculate_checksum: the complement of the ones'-complement sum. */
  method Calculate(data: seq<byte>, start: nat) returns (r: nat)
    requires |data| < 0x1_0000 && start <= 6 * ONES
    ensures r == ONES - Folded(start + Sum(data)) == ONES - OnesTotal(data, Words(data), Folded(start))
  {
    var checksum := Accumulate(data, start);
    FoldComplete(checksum);
    TotalIsOnes(data, Words(data), start);
    var carry := checksum / 0x1_0000;
    checksum := checksum % 0x1_0000 + carry;
    if checksum / 0x1_0000 != 0 {
      checksum := checksum + 1;
    }
    return ONES - checksum % 0x1_0000;
  }

  // ----- the field in the packet -----

  /** The buffer with word `i` replaced. */
  function WithWord(data: seq<byte>, i: nat, w: nat): (r: seq<byte>)
    requires 2 * i + 1 < |data| && w <= ONES
    ensures |r| == |data| && WordAt(r, i) == w
    ensures forall j :: 0 <= j && 2 * j < |data| && j != i ==> WordAt(r, j) == WordAt(data, j)
  {
    data[2 * i := w / 0x100][2 * i + 1 := w % 0x100]
  }

  lemma {:induction false} TotalWithWord(data: seq<byte>, i: nat, w: nat, n: nat)
    requires 2 * i + 1 < |data| && w <= ONES && 2 * n <= |data| + 1
    ensures Total(WithWord(data, i, w), n) == if i < n then Total(data, n) - WordAt(data, i) + w else Total(data, n)
  {
    if n > 0 {
      TotalWithWord(data, i, w, n - 1);
    }
  }

  /** Two positive sums fold to the same word exactly when they differ by a multiple of 0xFFFF. */
  lemma FoldedEqualIff(s: nat, t: nat)
    requires s > 0 && t > 0
    ensures Folded(s) == Folded(t) <==> (s - t) % ONES == 0
  {
    var a, b := (s - 1) / ONES - (t - 1) / ONES, (s - 1) % ONES - (t - 1) % ONES;
    assert s - t == a * ONES + b;
    if b >= 0 {
      DivModUnique(s - t, ONES, a, b);
    } else {
      DivModUnique(s - t, ONES, a - 1, b + ONES);
    }
  }

  /** The sum with all ones in the field equals that with zeroes there exactly when the rest of it is not zero. */
  lemma FieldOnesIff(data: seq<byte>, i: nat, start: nat)
    requires 2 * i + 1 < |data|
    ensures Folded(start + Sum(WithWord(data, i, ONES))) == Folded(start + Sum(WithWord(data, i, 0))) <==>
            start + Sum(WithWord(data, i, 0)) > 0
  {
    TotalWithWord(data, i, ONES, Words(data));
    TotalWithWord(data, i, 0, Words(data));
    var rest := start + Sum(WithWord(data, i, 0));
    assert start + Sum(WithWord(data, i, ONES)) == rest + ONES;
    if rest > 0 {
      FoldedPeriod(rest);
    } else {
      FoldedSmall(ONES);
    }
  }

  /** Changing one word changes the checksum unless it is from 0 to 0xFFFF or back. */
  lemma WordChangeIff(data: seq<byte>, i: nat, w: nat, start: nat)
    requires 2 * i + 1 < |data| && w <= ONES && start + Sum(data) > WordAt(data, i)
    ensures Folded(start + Sum(WithWord(data, i, w))) == Folded(start + Sum(data)) <==>
            w == WordAt(data, i) || (w == 0 && WordAt(data, i) == ONES) || (w == ONES && WordAt(data, i) == 0)
  {
    TotalWithWord(data, i, w, Words(data));
    var s, t := start + Sum(WithWord(data, i, w)), start + Sum(data);
    FoldedEqualIff(s, t);
    SmallMultiple(w - WordAt(data, i));
  }

  lemma SmallMultiple(d: int)
    requires -ONES <= d <= ONES
    ensures d % ONES == 0 <==> d == 0 || d == ONES || d == -ONES
  {
    if d < 0 {
      DivModUnique(d, ONES, -1, d + ONES);
    }
  }

  /** A buffer that carries the complement of its sum adds up to all ones. */
  lemma SumsToOnes(s: nat)
    ensures Folded(s + (ONES - Folded(s))) == ONES
  {
    FoldedAdd(s, ONES - Folded(s));
  }

  // ----- TCP -----

  const PROTOCOL := 6
  const FIELD := 8

  /** What tcp_calculate_checksum starts from: the addresses, the protocol and the length. */
  function PseudoHeader(src: nat, dest: nat, length: nat): (s: nat)
    requires src < WORD32 && dest < WORD32
    ensures PROTOCOL <= s && (length <= ONES ==> s <= 6 * ONES)
  {
    src / 0x1_0000 + src % 0x1_0000 + dest / 0x1_0000 + dest % 0x1_0000 + PROTOCOL + length
  }

  /** The pseudo header of section 3.1 of RFC 793: both addresses, a zero, the protocol and the length. */
  function PseudoBytes(src: nat, dest: nat, length: nat): (h: seq<byte>)
    requires src < WORD32 && dest < WORD32 && length <= ONES
    ensures |h| == 12
  {
    [src / 0x100_0000, src / 0x1_0000 % 0x100, src / 0x100 % 0x100, src % 0x100,
     dest / 0x100_0000, dest / 0x1_0000 % 0x100, dest / 0x100 % 0x100, dest % 0x100,
     0, 6, length / 0x100, length % 0x100]
  }

  lemma AddressWords(a: nat)
    ensures a / 0x100_0000 * 0x100 + a / 0x1_0000 % 0x100 == a / 0x1_0000
    ensures a / 0x100 % 0x100 * 0x100 + a % 0x100 == a % 0x1_0000
  {
  }

  lemma PseudoHeaderIs(src: nat, dest: nat, length: nat)
    requires src < WORD32 && dest < WORD32 && length <= ONES
    ensures PseudoHeader(src, dest, length) == Sum(PseudoBytes(src, dest, length))
  {
    var h := PseudoBytes(src, dest, length);
    AddressWords(src);
    AddressWords(dest);
    assert WordAt(h, 0) == src / 0x1_0000 && WordAt(h, 1) == src % 0x1_0000;
    assert WordAt(h, 2) == dest / 0x1_0000 && WordAt(h, 3) == dest % 0x1_0000;
    assert WordAt(h, 4) == PROTOCOL && WordAt(h, 5) == length;
    hide WordAt, PseudoBytes;
    assert Total(h, 2) == WordAt(h, 0) + WordAt(h, 1);
    assert Total(h, 4) == Total(h, 2) + WordAt(h, 2) + WordAt(h, 3);
    assert Total(h, 6) == Total(h, 4) + WordAt(h, 4) + WordAt(h, 5);
  }

  /** The checksum a sender stores, taken with 0xFFFF in the field, is the one the receiver takes with 0 there,
      whatever the packet. */
  method SendAndCheck(src: nat, dest: nat, segment: seq<byte>) returns (sent: nat, checked: nat)
    requires src < WORD32 && dest < WORD32 && 2 * FIELD + 1 < |segment| < 0x1_0000
    ensures sent == checked && sent <= ONES
    ensures sent == ONES - Folded(PseudoHeader(src, dest, |segment|) + Sum(WithWord(segment, FIELD, 0)))
  {
    var start := PseudoHeader(src, dest, |segment|);
    FieldOnesIff(segment, FIELD, start);
    sent := Calculate(WithWord(segment, FIELD, ONES), start);
    checked := Calculate(WithWord(WithWord(segment, FIELD, sent), FIELD, 0), start);
    assert WithWord(WithWord(segment, FIELD, sent), FIELD, 0) == WithWord(segment, FIELD, 0);
  }
}
