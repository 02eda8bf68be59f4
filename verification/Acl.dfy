/** Source filtering: the verdict of acl.c over its four longest-prefix tries, and the
    prefix arithmetic of conf_check.c that decides when a block rule is dead. */
module Acl {
  import opened Types

  /** A rule as configured and as stored: a length in bits and the address bytes. */
  datatype Prefix = Prefix(len: nat, addr: seq<nat>)

  datatype Verdict = None | Allow | Block

  const LIST_ALLOW: nat := 0
  const LIST_BLOCK: nat := 1
  const FAMILY_V4: nat := 0
  const FAMILY_V6: nat := 1
  const TRIES: nat := 4

  /** The bit of `acl_lists`, and here also the index, of one trie. */
  function ListsBit(list: nat, fam: nat): nat { 2 * list + fam }

  /** What a packet's check reads: the enable flag, `acl_lists` as four bits, the four tries. */
  datatype AclState = AclState(enabled: bool, lists: seq<bool>, tries: seq<set<Prefix>>)

  ghost predicate WellFormed(a: AclState) {
    |a.lists| == TRIES && |a.tries| == TRIES
  }

  // ---- prefixes ------------------------------------------------------------------------

  /** Bit `j` of a byte, the most significant first. */
  predicate ByteBit(byte: nat, j: nat)
    requires j < 8
  {
    (byte / Pow2(7 - j)) % 2 == 1
  }

  /** Bit `i` of an address in wire order. */
  predicate Bit(addr: seq<nat>, i: nat)
    requires i / 8 < |addr|
  {
    ByteBit(addr[i / 8], i % 8)
  }

  predicate Bytes(addr: seq<nat>, width: nat) {
    |addr| == width && forall i :: 0 <= i < width ==> addr[i] < 256
  }

  predicate ValidPrefix(p: Prefix, width: nat) {
    Bytes(p.addr, width) && p.len <= 8 * width
  }

  /** A source address, as its bits, lies under a prefix. */
  ghost predicate Matches(p: Prefix, source: seq<bool>) {
    && p.len <= |source| && p.len <= 8 * |p.addr|
    && forall i :: 0 <= i < p.len ==> Bit(p.addr, i) == source[i]
  }

  /** A trie lookup with the full-width key finds something: some stored prefix matches. */
  ghost predicate Hit(trie: set<Prefix>, source: seq<bool>) {
    exists p :: p in trie && Matches(p, source)
  }

  /** The first `keep` bits of a byte, the rest cleared. */
  function MaskHigh(byte: nat, keep: nat): int
    requires keep <= 8
  {
    byte / Pow2(8 - keep) * Pow2(8 - keep)
  }

  ghost predicate AgreeUpTo(x: seq<nat>, y: seq<nat>, n: nat)
    requires n <= 8 * |x| && n <= 8 * |y|
  {
    forall i :: 0 <= i < n ==> Bit(x, i) == Bit(y, i)
  }

  lemma HalfParts(p: nat, h: nat, b: nat, r: nat)
    requires b < 2 && r < p
    ensures p * (2 * h + b) + r == (2 * p) * h + (p * b + r) && p * b + r < 2 * p
  {
    if b == 1 {
      assert p * b == p;
    }
  }

  /** Dividing by twice as much: the quotient loses its last bit to the remainder. */
  lemma Halved(a: nat, p: nat, q: nat)
    requires p > 0 && q == a / p
    ensures a / (2 * p) == q / 2 && a % (2 * p) == p * (q % 2) + a % p
  {
    HalfParts(p, q / 2, q % 2, a % p);
    assert q == 2 * (q / 2) + q % 2;
    DivisionUnique(a, 2 * p, q / 2, p * (q % 2) + a % p);
  }

  /** One more bit of a byte: what dividing by half as much adds, and what stays below. */
  lemma ByteStep(a: nat, keep: nat)
    requires 1 <= keep <= 8
    ensures a / Pow2(8 - keep) == 2 * (a / Pow2(9 - keep)) + if ByteBit(a, keep - 1) then 1 else 0
    ensures a % Pow2(9 - keep) == 0 <==> a % Pow2(8 - keep) == 0 && !ByteBit(a, keep - 1)
  {
    var p := Pow2(8 - keep);
    assert Pow2(9 - keep) == 2 * p;
    Halved(a, p, a / p);
    if ByteBit(a, keep - 1) {
      assert p * (a / p % 2) == p;
    } else {
      assert p * (a / p % 2) == 0;
    }
  }

  lemma MaskQuotient(a: nat, keep: nat)
    requires keep <= 8
    ensures MaskHigh(a, keep) / Pow2(8 - keep) == a / Pow2(8 - keep)
  {
    RoundedQuotient(a, Pow2(8 - keep));
  }

  ghost predicate SameBits(a: nat, b: nat, keep: nat)
    requires keep <= 8
  {
    forall j :: 0 <= j < keep ==> ByteBit(a, j) == ByteBit(b, j)
  }

  /** Two bytes have the same leading bits exactly when they are equal under the mask. */
  lemma {:induction false} QuotientComparesBits(a: nat, b: nat, keep: nat)
    requires a < 256 && b < 256 && keep <= 8
    ensures a / Pow2(8 - keep) == b / Pow2(8 - keep) <==> SameBits(a, b, keep)
  {
    if keep > 0 {
      QuotientComparesBits(a, b, keep - 1);
      ByteStep(a, keep);
      ByteStep(b, keep);
    }
  }

  lemma MaskComparesBits(a: nat, b: nat, keep: nat)
    requires a < 256 && b < 256 && keep <= 8
    ensures MaskHigh(a, keep) == MaskHigh(b, keep) <==> SameBits(a, b, keep)
  {
    QuotientComparesBits(a, b, keep);
    MaskQuotient(a, keep);
    MaskQuotient(b, keep);
  }

  /** Agreement up to `keep` bits into byte `byte`, one byte at a time. */
  lemma AgreeInByte(x: seq<nat>, y: seq<nat>, byte: nat, keep: nat)
    requires byte < |x| && byte < |y| && keep <= 8 && AgreeUpTo(x, y, 8 * byte)
    ensures AgreeUpTo(x, y, 8 * byte + keep) <==> SameBits(x[byte], y[byte], keep)
  {
    if AgreeUpTo(x, y, 8 * byte + keep) {
      forall j | 0 <= j < keep ensures ByteBit(x[byte], j) == ByteBit(y[byte], j) {
        assert Bit(x, 8 * byte + j) == Bit(y, 8 * byte + j);
      }
    }
    if SameBits(x[byte], y[byte], keep) {
      forall i | 0 <= i < 8 * byte + keep ensures Bit(x, i) == Bit(y, i) {
        assert i >= 8 * byte ==> i / 8 == byte && ByteBit(x[byte], i % 8) == ByteBit(y[byte], i % 8);
      }
    }
  }

  lemma AgreeByte(x: seq<nat>, y: seq<nat>, width: nat, byte: nat, keep: nat)
    requires Bytes(x, width) && Bytes(y, width) && byte < width && keep <= 8
    requires AgreeUpTo(x, y, 8 * byte)
    ensures AgreeUpTo(x, y, 8 * byte + keep) <==> MaskHigh(x[byte], keep) == MaskHigh(y[byte], keep)
  {
    AgreeInByte(x, y, byte, keep);
    MaskComparesBits(x[byte], y[byte], keep);
  }

  /** Every address under `inner` is under `outer`. */
  ghost predicate Covers(outer: Prefix, inner: Prefix, width: nat) {
    forall source: seq<bool> :: |source| == 8 * width && Matches(inner, source) ==> Matches(outer, source)
  }

  function OwnBits(p: Prefix, width: nat): (bits: seq<bool>)
    requires |p.addr| == width
  {
    seq(8 * width, i requires 0 <= i < 8 * width => Bit(p.addr, i))
  }

  /** A longer prefix misses one of two sources that differ just past the shorter one. */
  lemma LongerMisses(outer: Prefix, inner: Prefix, width: nat)
    requires ValidPrefix(outer, width) && ValidPrefix(inner, width)
    requires outer.len > inner.len
    ensures !Covers(outer, inner, width)
  {
    var k, own := inner.len, OwnBits(inner, width);
    var other := own[k := !own[k]];
    assert Matches(inner, own) && Matches(inner, other);
    assert Matches(outer, own) ==> Bit(outer.addr, k) == own[k];
    assert Matches(outer, other) ==> Bit(outer.addr, k) == other[k];
  }

  /** Coverage is a shorter length and agreement on its bits. */
  lemma CoversExactly(outer: Prefix, inner: Prefix, width: nat)
    requires ValidPrefix(outer, width) && ValidPrefix(inner, width)
    ensures Covers(outer, inner, width) <==> outer.len <= inner.len && AgreeUpTo(outer.addr, inner.addr, outer.len)
  {
    var own := OwnBits(inner, width);
    assert Matches(inner, own);
    if outer.len > inner.len {
      LongerMisses(outer, inner, width);
    } else if Covers(outer, inner, width) {
      assert Matches(outer, own);
      forall i | 0 <= i < outer.len ensures Bit(outer.addr, i) == Bit(inner.addr, i) {
        assert own[i] == Bit(inner.addr, i);
      }
    }
  }

  /** `prefix_covers` decides coverage. */
  method PrefixCovers(outer: Prefix, inner: Prefix, width: nat) returns (covers: bool)
    requires ValidPrefix(outer, width) && ValidPrefix(inner, width)
    ensures covers <==> Covers(outer, inner, width)
  {
    CoversExactly(outer, inner, width);
    if outer.len > inner.len {
      return false;
    }
    for byte := 0 to width
      invariant 8 * byte <= outer.len + 7
      invariant AgreeUpTo(outer.addr, inner.addr, if 8 * byte <= outer.len then 8 * byte else outer.len)
    {
      var bitBase := byte * 8;
      if bitBase >= outer.len {
        break;
      }
      if bitBase + 8 <= outer.len {
        AgreeByte(outer.addr, inner.addr, width, byte, 8);
        if outer.addr[byte] != inner.addr[byte] {
          return false;
        }
        continue;
      }
      var keep := outer.len - bitBase;
      AgreeByte(outer.addr, inner.addr, width, byte, keep);
      if MaskHigh(outer.addr[byte], keep) != MaskHigh(inner.addr[byte], keep) {
        return false;
      }
    }
    return true;
  }

  // ---- rules as trie keys --------------------------------------------------------------------

  /** Nothing is set below the prefix length, as a configuration must have it. */
  ghost predicate HostBitsClear(p: Prefix, width: nat)
    requires ValidPrefix(p, width)
  {
    ClearBetween(p.addr, p.len, 8 * width)
  }

  ghost predicate ClearBetween(addr: seq<nat>, from: nat, to: nat)
    requires to <= 8 * |addr|
  {
    forall i :: from <= i < to ==> !Bit(addr, i)
  }

  ghost predicate NoBits(a: nat, from: nat) {
    forall j :: from <= j < 8 ==> !ByteBit(a, j)
  }

  lemma {:induction false} TailBits(a: nat, keep: nat)
    requires a < 256 && keep <= 8
    ensures a % Pow2(8 - keep) == 0 <==> NoBits(a, keep)
    decreases 8 - keep
  {
    if keep < 8 {
      TailBits(a, keep + 1);
      ByteStep(a, keep + 1);
    }
  }

  /** Host bits one byte at a time; `keep` is how much of the byte belongs to the prefix. */
  lemma ClearByte(addr: seq<nat>, width: nat, len: nat, byte: nat, keep: nat)
    requires Bytes(addr, width) && byte < width && keep <= 8
    requires keep == if len <= 8 * byte then 0 else if len >= 8 * byte + 8 then 8 else len - 8 * byte
    ensures ClearBetween(addr, len, 8 * byte + 8) <==> ClearBetween(addr, len, 8 * byte) && addr[byte] % Pow2(8 - keep) == 0
  {
    ClearInByte(addr, len, byte, keep);
    TailBits(addr[byte], keep);
  }

  lemma ClearInByte(addr: seq<nat>, len: nat, byte: nat, keep: nat)
    requires byte < |addr| && keep <= 8
    requires keep == if len <= 8 * byte then 0 else if len >= 8 * byte + 8 then 8 else len - 8 * byte
    ensures ClearBetween(addr, len, 8 * byte + 8) <==> ClearBetween(addr, len, 8 * byte) && NoBits(addr[byte], keep)
  {
    if ClearBetween(addr, len, 8 * byte + 8) {
      forall j | keep <= j < 8 ensures !ByteBit(addr[byte], j) {
        assert !Bit(addr, 8 * byte + j);
      }
    }
    if ClearBetween(addr, len, 8 * byte) && NoBits(addr[byte], keep) {
      forall i | len <= i < 8 * byte + 8 ensures !Bit(addr, i) {
        assert i >= 8 * byte ==> i / 8 == byte && !ByteBit(addr[byte], i % 8);
      }
    }
  }

  /** `conf_cidr_host_bits_set` finds a bit below the prefix length exactly when there is one. */
  method HostBitsSet(p: Prefix, width: nat) returns (found: bool)
    requires ValidPrefix(p, width)
    ensures found <==> !HostBitsClear(p, width)
  {
    for byte := 0 to width
      invariant ClearBetween(p.addr, p.len, 8 * byte)
    {
      var bitBase := byte * 8;
      ClearByte(p.addr, width, p.len, byte, if p.len <= bitBase then 0 else if p.len >= bitBase + 8 then 8 else p.len - bitBase);
      if bitBase >= p.len {
        if p.addr[byte] % Pow2(8) != 0 {
          return true;
        }
      } else if bitBase + 8 > p.len {
        if p.addr[byte] % Pow2(8 - (p.len - bitBase)) != 0 {
          return true;
        }
      }
    }
    return false;
  }

  /** A trie takes two rules for the same when their lengths and prefix bits agree. With clear
      host bits that is equality, so a trie is a set of rules. */
  lemma TrieIdentity(p: Prefix, q: Prefix, width: nat)
    requires ValidPrefix(p, width) && ValidPrefix(q, width) && HostBitsClear(p, width) && HostBitsClear(q, width)
    ensures p == q <==> p.len == q.len && AgreeUpTo(p.addr, q.addr, p.len)
  {
    if p.len == q.len && AgreeUpTo(p.addr, q.addr, p.len) {
      forall byte | 0 <= byte < width ensures p.addr[byte] == q.addr[byte] {
        forall j | 0 <= j < 8 ensures ByteBit(p.addr[byte], j) == ByteBit(q.addr[byte], j) {
          assert Bit(p.addr, 8 * byte + j) == Bit(q.addr, 8 * byte + j);
        }
        QuotientComparesBits(p.addr[byte], q.addr[byte], 8);
        assert Pow2(0) == 1;
      }
    }
  }

  // ---- the verdict ------------------------------------------------------------------------

  ghost function CheckFamily(a: AclState, fam: nat, source: seq<bool>): Verdict
    requires WellFormed(a) && fam < 2
  {
    if a.lists[ListsBit(LIST_ALLOW, fam)] && Hit(a.tries[ListsBit(LIST_ALLOW, fam)], source) then Allow
    else if a.lists[ListsBit(LIST_BLOCK, fam)] && Hit(a.tries[ListsBit(LIST_BLOCK, fam)], source) then Block
    else None
  }

  ghost function AclCheck(a: AclState, family: nat, source: seq<bool>): Verdict
    requires WellFormed(a)
  {
    if !a.enabled then None
    else if family == AF_INET then CheckFamily(a, FAMILY_V4, source)
    else if family == AF_INET6 then CheckFamily(a, FAMILY_V6, source)
    else None
  }

  /** A rule of a list that is switched on holds the source. */
  ghost predicate Applies(a: AclState, t: nat, source: seq<bool>)
    requires WellFormed(a) && t < TRIES
  {
    a.enabled && a.lists[t] && exists p :: p in a.tries[t] && Matches(p, source)
  }

  /** The verdict over rules: the tries are allow and block, each for IPv4 and then IPv6; an
      allow rule wins, a block rule counts without one, and other families have no rules. */
  lemma VerdictExactly(a: AclState, family: nat, source: seq<bool>)
    requires WellFormed(a)
    ensures AclCheck(a, family, source) == Allow <==> (family == 2 && Applies(a, 0, source)) || (family == 10 && Applies(a, 1, source))
    ensures AclCheck(a, family, source) == Block <==>
            || (family == 2 && Applies(a, 2, source) && !Applies(a, 0, source))
            || (family == 10 && Applies(a, 3, source) && !Applies(a, 1, source))
  {
    assert forall t :: 0 <= t < TRIES ==> (Applies(a, t, source) <==> a.enabled && a.lists[t] && Hit(a.tries[t], source));
  }

  /** A trie that holds rules has its bit set, so no rule is skipped. */
  ghost predicate BitsCover(a: AclState)
    requires WellFormed(a)
  {
    forall t :: 0 <= t < TRIES && a.tries[t] != {} ==> a.lists[t]
  }

  // ---- changing the lists under traffic -------------------------------------------------

  /** A trie on its way from `before` to `after`: nothing foreign in it, and one of the two is
      still, or already, completely there. */
  ghost predicate Between(trie: set<Prefix>, before: set<Prefix>, after: set<Prefix>) {
    trie <= before + after && (before <= trie || after <= trie)
  }

  /** A source that hits both, or neither, of the two ends hits alike everywhere in between. */
  lemma HitSteady(trie: set<Prefix>, before: set<Prefix>, after: set<Prefix>, source: seq<bool>)
    requires Between(trie, before, after)
    ensures Hit(before, source) && Hit(after, source) ==> Hit(trie, source)
    ensures !Hit(before, source) && !Hit(after, source) ==> !Hit(trie, source)
  {
    if Hit(before, source) && Hit(after, source) {
      var p :| p in before && Matches(p, source);
      var q :| q in after && Matches(q, source);
      assert p in trie || q in trie;
    }
    if Hit(trie, source) {
      var p :| p in trie && Matches(p, source);
      assert p in before || p in after;
    }
  }

  /** A state on the way: every trie in between, and no bit clear that both ends rely on. */
  ghost predicate ServesBoth(a: AclState, before: AclState, after: AclState)
    requires WellFormed(a) && WellFormed(before) && WellFormed(after)
  {
    && a.enabled
    && (forall t :: 0 <= t < TRIES ==> Between(a.tries[t], before.tries[t], after.tries[t]))
    && (forall t :: 0 <= t < TRIES && before.tries[t] != {} && after.tries[t] != {} ==> a.lists[t])
  }

  /** Hitless change: a source with the same verdict before and after has it all the way. */
  lemma VerdictSteady(a: AclState, before: AclState, after: AclState, family: nat, source: seq<bool>)
    requires WellFormed(a) && WellFormed(before) && WellFormed(after)
    requires before.enabled && after.enabled && BitsCover(before) && BitsCover(after)
    requires ServesBoth(a, before, after)
    requires AclCheck(before, family, source) == AclCheck(after, family, source)
    ensures AclCheck(a, family, source) == AclCheck(after, family, source)
  {
    forall t | 0 <= t < TRIES
      ensures Hit(before.tries[t], source) && Hit(after.tries[t], source) ==> Hit(a.tries[t], source) && a.lists[t]
      ensures !Hit(before.tries[t], source) && !Hit(after.tries[t], source) ==> !Hit(a.tries[t], source)
    {
      HitSteady(a.tries[t], before.tries[t], after.tries[t], source);
    }
  }
}
