/** Entities shared by the loader and the data plane. */
module Types {

  const AF_INET: nat := 2
  const AF_INET6: nat := 10
  const ETH_HLEN: nat := 14
  const NO_BACKEND: nat := 0
  const TWO32: nat := 0x1_0000_0000

  function Pow2(n: nat): (p: nat)
    ensures p > 0
  {
    if n == 0 then 1 else 2 * Pow2(n - 1)
  }

  lemma AtLeastOnce(d: nat, e: int)
    ensures e >= 1 ==> d * e >= d
  {
    if e >= 1 {
      assert d * e == d + d * (e - 1);
    }
  }

  /** Quotient and remainder are the only numbers that fit. */
  lemma DivisionUnique(a: nat, d: nat, q: nat, r: nat)
    requires a == d * q + r && r < d
    ensures a / d == q && a % d == r
  {
    var e := q - a / d;
    assert d * e == d * q - d * (a / d);
    AtLeastOnce(d, e);
    AtLeastOnce(d, -e);
    assert d * -e == -(d * e);
  }

  /** Dividing what is left after rounding down to a multiple changes nothing. */
  lemma RoundedQuotient(a: nat, p: nat)
    requires p > 0
    ensures a / p * p / p == a / p
  {
    assert a / p * p == p * (a / p) + 0;
    DivisionUnique(a / p * p, p, a / p, 0);
  }

  /** The IPv4 fragment field: reserved bit, don't-fragment, more-fragments, offset (RFC 791). */
  function Field4(reserved: nat, df: nat, mf: nat, offset: nat): nat { reserved * 0x8000 + df * 0x4000 + mf * 0x2000 + offset }

  /** The IPv6 fragment field: offset, reserved bits, more-fragments (section 4.5 of RFC 8200). */
  function Field6(offset: nat, reserved: nat, more: nat): nat { offset * 8 + reserved * 2 + more }

  /** A 16-bit field read in wire order. */
  function Be16At(f: seq<nat>, off: nat): nat
    requires off + 2 <= |f|
  {
    f[off] * 256 + f[off + 1]
  }

  /** A `vip_map` key. `addr` holds four 32-bit words; an IPv4 key keeps its address in
      the first word and zeroes the rest, because every builder clears the struct first. */
  datatype VipKey = VipKey(family: nat, addr: seq<nat>, port: nat, proto: nat)

  /** A `vip_map` value: the block number and what selection reads besides it. */
  datatype VipMeta = VipMeta(vipNum: nat, flags: nat, hashKey: seq<nat>)

  ghost predicate CanonicalKey(key: VipKey) {
    && |key.addr| == 4
    && (key.family == AF_INET ==> key.addr[1..] == [0, 0, 0])
  }

  /** The loader's field-by-field comparison: IPv4 keys compare one word, all others four. */
  predicate KeyEq(lhs: VipKey, rhs: VipKey)
    requires |lhs.addr| == 4 && |rhs.addr| == 4
  {
    if lhs.family != rhs.family || lhs.port != rhs.port || lhs.proto != rhs.proto then false
    else if lhs.family == AF_INET then lhs.addr[0] == rhs.addr[0]
    else lhs.addr == rhs.addr
  }

  /** The loader's comparison and the hash map's whole-key comparison agree, so a
      plan computed with one is valid for writes made through the other. */
  lemma KeyEqIsMapEquality(lhs: VipKey, rhs: VipKey)
    requires CanonicalKey(lhs) && CanonicalKey(rhs)
    ensures KeyEq(lhs, rhs) <==> lhs == rhs
  {
    if KeyEq(lhs, rhs) && lhs.family == AF_INET {
      assert lhs.addr == [lhs.addr[0]] + lhs.addr[1..];
      assert rhs.addr == [rhs.addr[0]] + rhs.addr[1..];
    }
  }
}
