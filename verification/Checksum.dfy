/** One's-complement checksums (csum.h): the sum over native words equals the sum over
    big-endian words up to a byte swap, as section 2(B) of RFC 1071 has it. The host is
    little-endian, so a 16-bit value lies in memory with its low byte first. */
module Checksum {
  import opened Types

  predicate IsBytes(buf: seq<nat>) {
    forall i :: 0 <= i < |buf| ==> buf[i] < 256
  }

  function Swap16(x: nat): nat
    requires x < 65536
  {
    x % 256 * 256 + x / 256
  }

  /** One fold of the carries of a 32-bit sum into its low half. */
  function FoldOnce(sum: nat): nat { sum % 65536 + sum / 65536 }

  function FoldTwice(sum: nat): nat { FoldOnce(FoldOnce(sum)) }

  /** The low 16 bits of the complement. */
  function Complement16(sum: nat): nat { 65535 - sum % 65536 }

  /** `marlin_csum_fold`: folded, complemented, in wire order. */
  function CsumFold(sum: nat): nat { Swap16(Complement16(FoldTwice(sum))) }

  /** The sum of the first `n` big-endian words. */
  function WordSum(buf: seq<nat>, n: nat): nat
    requires 2 * n <= |buf|
  {
    if n == 0 then 0 else WordSum(buf, n - 1) + buf[2 * n - 2] * 256 + buf[2 * n - 1]
  }

  /** The sum of the first `n` words as a little-endian host loads them. */
  function NativeSum(buf: seq<nat>, n: nat): nat
    requires 2 * n <= |buf|
  {
    if n == 0 then 0 else NativeSum(buf, n - 1) + buf[2 * n - 2] + buf[2 * n - 1] * 256
  }

  /** What section 1 of RFC 1071 sums: all words, a trailing byte padded with zero. */
  function Rfc1071Sum(buf: seq<nat>): nat {
    WordSum(buf, |buf| / 2) + if |buf| % 2 == 1 then buf[|buf| - 1] * 256 else 0
  }

  lemma ModAdd(a: nat, b: nat)
    ensures (a % TWO32 + b) % TWO32 == (a + b) % TWO32
  {
  }

  /** `marlin_csum_words`: the running sum, in 32 bits. */
  method CsumWords(buf: seq<nat>, start: nat) returns (sum: nat)
    requires IsBytes(buf) && start < TWO32
    ensures sum == (start + Rfc1071Sum(buf)) % TWO32
  {
    sum := start;
    var idx := 0;
    while idx + 1 < |buf|
      invariant idx % 2 == 0 && idx <= |buf|
      invariant sum == (start + WordSum(buf, idx / 2)) % TWO32
    {
      ModAdd(start + WordSum(buf, idx / 2), buf[idx] * 256 + buf[idx + 1]);
      assert WordSum(buf, (idx + 2) / 2) == WordSum(buf, idx / 2) + buf[idx] * 256 + buf[idx + 1];
      sum := (sum + buf[idx] * 256 + buf[idx + 1]) % TWO32;
      idx := idx + 2;
    }
    assert idx / 2 == |buf| / 2;
    if |buf| % 2 != 0 {
      ModAdd(start + WordSum(buf, idx / 2), buf[|buf| - 1] * 256);
      sum := (sum + buf[|buf| - 1] * 256) % TWO32;
    }
  }

  /** `marlin_ipv4_csum`: nine native words of the header, the check field skipped. */
  function Ipv4Csum(h: seq<nat>): nat
    requires |h| == 20 && IsBytes(h)
  {
    var sum := Native(h, 0) + Native(h, 1) + Native(h, 2) + Native(h, 3) + Native(h, 4) +
               Native(h, 6) + Native(h, 7) + Native(h, 8) + Native(h, 9);
    Complement16(FoldTwice(sum))
  }

  function Native(h: seq<nat>, i: nat): nat
    requires 2 * i + 1 < |h|
  {
    h[2 * i] + h[2 * i + 1] * 256
  }

  // ---- the fold ----------------------------------------------------------------------------

  /** How many times 65535 two folds take off a sum. */
  function Carries(sum: nat): nat { sum / 65536 + FoldOnce(sum) / 65536 }

  lemma FoldTakesCarries(sum: nat)
    requires sum < TWO32
    ensures FoldTwice(sum) == sum - 65535 * Carries(sum)
    ensures FoldTwice(sum) <= 65535 && (FoldTwice(sum) == 0 <==> sum == 0)
  {
  }

  /** Two folds absorb every 32-bit sum, keep it modulo 65535, and reach zero only from zero. */
  lemma FoldAbsorbs(sum: nat)
    requires sum < TWO32
    ensures FoldTwice(sum) <= 65535 && FoldTwice(sum) % 65535 == sum % 65535
    ensures FoldTwice(sum) == 0 <==> sum == 0
  {
    FoldTakesCarries(sum);
  }

  // ---- byte order ------------------------------------------------------------------------------

  lemma {:induction false} SumsBounded(buf: seq<nat>, n: nat)
    requires IsBytes(buf) && 2 * n <= |buf|
    ensures WordSum(buf, n) <= 65535 * n && NativeSum(buf, n) <= 65535 * n
    ensures WordSum(buf, n) == 0 <==> NativeSum(buf, n) == 0
  {
    if n > 0 {
      SumsBounded(buf, n - 1);
    }
  }

  /** Swapping every word multiplies the sum by 256, up to a multiple of 65535. */
  lemma {:induction false} SwappedSum(buf: seq<nat>, n: nat) returns (q: int)
    requires IsBytes(buf) && 2 * n <= |buf|
    ensures 256 * WordSum(buf, n) - NativeSum(buf, n) == 65535 * q
  {
    q := 0;
    if n > 0 {
      q := SwappedSum(buf, n - 1);
      q := q + buf[2 * n - 2];
    }
  }

  lemma SwapIsTimes256(x: nat)
    requires x < 65536
    ensures 256 * x - Swap16(x) == 65535 * (x / 256)
    ensures Swap16(x) < 65536 && (Swap16(x) == 0 <==> x == 0)
  {
  }

  /** Two folded values that differ by a multiple of 65535, and are zero together, are equal. */
  lemma SameResidue(x: nat, y: nat, q: int)
    requires x <= 65535 && y <= 65535 && (x == 0 <==> y == 0) && x - y == 65535 * q
    ensures x == y
  {
  }

  /** Byte-order independence: for any buffer of words, folding the native sum gives the byte
      swap of folding the big-endian sum. */
  lemma ByteOrderIndependent(buf: seq<nat>, n: nat)
    requires IsBytes(buf) && 2 * n <= |buf| && 65535 * n < TWO32
    ensures FoldTwice(WordSum(buf, n)) <= 65535
    ensures FoldTwice(NativeSum(buf, n)) == Swap16(FoldTwice(WordSum(buf, n)))
  {
    SumsBounded(buf, n);
    var q := SwappedSum(buf, n);
    FoldsSwap(WordSum(buf, n), NativeSum(buf, n), q);
  }

  lemma FoldsSwap(big: nat, native: nat, q: int)
    requires big < TWO32 && native < TWO32 && 256 * big - native == 65535 * q && (big == 0 <==> native == 0)
    ensures FoldTwice(big) <= 65535 && FoldTwice(native) == Swap16(FoldTwice(big))
  {
    FoldTakesCarries(big);
    FoldTakesCarries(native);
    var folded := FoldTwice(big);
    SwapIsTimes256(folded);
    SameResidue(Swap16(folded), FoldTwice(native), q - 256 * Carries(big) + Carries(native) - folded / 256);
  }

  lemma Digits(hi: nat, lo: nat)
    requires lo < 256
    ensures (hi * 256 + lo) / 256 == hi && (hi * 256 + lo) % 256 == lo
  {
  }

  lemma ComplementSwaps(x: nat)
    requires x <= 65535
    ensures Swap16(x) <= 65535 && 65535 - Swap16(x) == Swap16(65535 - x)
  {
    var hi, lo := x / 256, x % 256;
    Digits(255 - hi, 255 - lo);
    assert 65535 - x == (255 - hi) * 256 + (255 - lo);
  }

  lemma SwapTwice(x: nat)
    requires x <= 65535
    ensures Swap16(x) <= 65535 && Swap16(Swap16(x)) == x
  {
    Digits(x % 256, x / 256);
  }

  /** The header with the two bytes of its check field set. */
  function WithBytes(h: seq<nat>, x: nat, y: nat): (w: seq<nat>)
    requires |h| == 20
    ensures |w| == 20
  {
    h[10 := x][11 := y]
  }

  function Cleared(h: seq<nat>): (c: seq<nat>)
    requires |h| == 20
    ensures |c| == 20
  {
    WithBytes(h, 0, 0)
  }

  lemma NineWords(h: seq<nat>)
    requires |h| == 20 && IsBytes(h)
    ensures NativeSum(Cleared(h), 10) == Native(h, 0) + Native(h, 1) + Native(h, 2) + Native(h, 3) + Native(h, 4) +
                                         Native(h, 6) + Native(h, 7) + Native(h, 8) + Native(h, 9)
  {
    var c := Cleared(h);
    assert NativeSum(c, 1) == Native(h, 0);
    assert NativeSum(c, 3) == NativeSum(c, 1) + Native(h, 1) + Native(h, 2);
    assert NativeSum(c, 5) == NativeSum(c, 3) + Native(h, 3) + Native(h, 4);
    assert NativeSum(c, 6) == NativeSum(c, 5);
    assert NativeSum(c, 8) == NativeSum(c, 6) + Native(h, 6) + Native(h, 7);
    assert NativeSum(c, 10) == NativeSum(c, 8) + Native(h, 8) + Native(h, 9);
  }

  lemma ComplementOf16Bits(x: nat)
    requires x <= 65535
    ensures Complement16(x) == 65535 - x
  {
  }

  lemma SwapThenComplement(x: nat, y: nat)
    requires x <= 65535 && y == Swap16(x)
    ensures Complement16(y) == Swap16(Complement16(x)) == Swap16(65535 - x) <= 65535
  {
    ComplementSwaps(x);
    ComplementOf16Bits(x);
    ComplementOf16Bits(y);
  }

  lemma NativeChecksum(buf: seq<nat>, n: nat)
    requires IsBytes(buf) && 2 * n <= |buf| && 65535 * n < TWO32
    ensures Complement16(FoldTwice(NativeSum(buf, n))) == CsumFold(WordSum(buf, n)) <= 65535
    ensures FoldTwice(WordSum(buf, n)) <= 65535 && CsumFold(WordSum(buf, n)) == Swap16(65535 - FoldTwice(WordSum(buf, n)))
  {
    ByteOrderIndependent(buf, n);
    SwapThenComplement(FoldTwice(WordSum(buf, n)), FoldTwice(NativeSum(buf, n)));
  }

  /** The native-word header checksum is the big-endian one, as `marlin_csum_fold` emits it. */
  lemma Ipv4CsumIsRfc1071(h: seq<nat>)
    requires |h| == 20 && IsBytes(h)
    ensures Ipv4Csum(h) == CsumFold(Rfc1071Sum(Cleared(h))) <= 65535
  {
    NineWords(h);
    NativeChecksum(Cleared(h), |h| / 2);
  }

  /** The header with a 16-bit value stored in its check field, low byte first. */
  function WithCheck(h: seq<nat>, check: nat): seq<nat>
    requires |h| == 20
  {
    WithBytes(h, check % 256, check / 256)
  }

  /** The check field adds its two bytes, as one big-endian word, to the sum. */
  lemma {:induction false} CheckFieldAdds(h: seq<nat>, x: nat, y: nat, n: nat)
    requires |h| == 20 && n <= 10
    ensures WordSum(WithBytes(h, x, y), n) == WordSum(Cleared(h), n) + if n > 5 then x * 256 + y else 0
  {
    if n > 0 {
      CheckFieldAdds(h, x, y, n - 1);
    }
  }

  lemma CarriedSum(h: seq<nat>, check: nat, n: nat)
    requires |h| == 20 && n == |h| / 2 && check < 65536
    ensures Rfc1071Sum(WithCheck(h, check)) == WordSum(Cleared(h), n) + Swap16(check)
  {
    CheckFieldAdds(h, check % 256, check / 256, n);
  }

  /** Adding the complement of its fold makes a sum fold to all ones. */
  lemma ComplementCancels(sum: nat)
    requires sum < TWO32 - 65536
    ensures FoldTwice(sum) <= 65535 && FoldTwice(sum + (65535 - FoldTwice(sum))) == 65535
  {
    FoldTakesCarries(sum);
    var total := sum + (65535 - FoldTwice(sum));
    FoldTakesCarries(total);
    SameResidue(FoldTwice(total), 65535, Carries(sum) - Carries(total));
  }

  lemma AllOnes(total: nat, folded: nat)
    requires FoldTwice(total) == folded && folded == 65535
    ensures CsumFold(total) == 0
  {
    assert Complement16(folded) == 0 && Swap16(0) == 0;
  }

  lemma FoldOfCarried(total: nat, sum: nat, x: nat, check: nat)
    requires sum < TWO32 - 65536 && FoldTwice(sum) <= 65535 && x == 65535 - FoldTwice(sum)
    requires check == Swap16(x) && check <= 65535 && total == sum + Swap16(check)
    ensures CsumFold(total) == 0
  {
    SwapTwice(x);
    ComplementCancels(sum);
    AllOnes(sum + x, 65535);
  }

  lemma CarriedFold(h: seq<nat>, sum: nat, x: nat, check: nat, total: nat, n: nat)
    requires |h| == 20 && n == |h| / 2 && sum == WordSum(Cleared(h), n) && sum < TWO32 - 65536
    requires FoldTwice(sum) <= 65535 && x == 65535 - FoldTwice(sum) && check == Swap16(x) && check <= 65535
    requires total == Rfc1071Sum(WithCheck(h, check))
    ensures CsumFold(total) == 0
  {
    CarriedSum(h, check, n);
    FoldOfCarried(total, sum, x, check);
  }

  /** A receiver's check: the sum over a header that carries its checksum folds to zero. */
  lemma ChecksumVerifies(h: seq<nat>)
    requires |h| == 20 && IsBytes(h)
    ensures Ipv4Csum(h) <= 65535 && CsumFold(Rfc1071Sum(WithCheck(h, Ipv4Csum(h)))) == 0
  {
    Ipv4CsumIsRfc1071(h);
    CarriedChecksum(h, Ipv4Csum(h), |h| / 2);
  }

  lemma CarriedChecksum(h: seq<nat>, check: nat, n: nat)
    requires |h| == 20 && n == |h| / 2 && IsBytes(h) && check == CsumFold(Rfc1071Sum(Cleared(h)))
    ensures CsumFold(Rfc1071Sum(WithCheck(h, check))) == 0
  {
    var sum := WordSum(Cleared(h), n);
    SumsBounded(Cleared(h), n);
    NativeChecksum(Cleared(h), n);
    CarriedFold(h, sum, 65535 - FoldTwice(sum), check, Rfc1071Sum(WithCheck(h, check)), n);
  }
}
