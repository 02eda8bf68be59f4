/** Tunnel encapsulation in place (ipip.c, gue.c, vxlan.c): the packet head moves back into the
    headroom and outer headers are stored over the bytes the arriving frame occupied. */
module Encap {
  import opened Checksum
  import opened Types

  const OVERHEAD_IPIP: nat := 20
  const OVERHEAD_GUE: nat := 32
  const OVERHEAD_VXLAN: nat := 50
  const IPPROTO_IPIP: nat := 4
  const IPPROTO_UDP: nat := 17
  const IPPROTO_IPV6: nat := 41
  const OUTER_TTL: nat := 64
  const GUE_DPORT_DEFAULT: nat := 6080
  const VXLAN_DPORT_DEFAULT: nat := 4789

  datatype Ret = Ok | DropEncapLength | DropFrameTooBig | DropParseError | DropAdjustHead

  /** The fields of `marlin_ctx` the encapsulation units use. Addresses and MACs are bytes in
      wire order, ports and lengths are numbers; `sport` is the entropy source port. */
  datatype Ctx = Ctx(pktLen: nat, l3Off: nat, family: nat, tos: nat, tunnelSrc: seq<nat>, maxFrame: nat,
                     addr: seq<nat>, encapDport: nat, vni: nat, innerMac: seq<nat>, sport: nat)

  predicate ValidCtx(c: Ctx) {
    && c.pktLen < 65536 && c.maxFrame < 65536 && c.tos < 256 && c.encapDport < 65536 && c.sport < 65536
    && |c.tunnelSrc| == 4 && |c.addr| == 4 && |c.innerMac| == 6
    && IsBytes(c.tunnelSrc) && IsBytes(c.addr) && IsBytes(c.innerMac)
  }

  // ---- headers -----------------------------------------------------------------------------

  /** A 16-bit field in wire order; the store truncates. */
  function Be16(x: nat): (bytes: seq<nat>)
    ensures |bytes| == 2
  {
    [x / 256 % 256, x % 256]
  }

  /** The outer IPv4 header before its checksum: version 4, no options, DF, no id. */
  function Ipv4Fields(c: Ctx, proto: nat, totLen: nat): (h: seq<nat>)
    requires ValidCtx(c)
    ensures |h| == 20
  {
    [0x45, c.tos] + Be16(totLen) + [0, 0, 0x40, 0, OUTER_TTL, proto, 0, 0] + c.tunnelSrc + c.addr
  }

  function OuterIpv4(c: Ctx, proto: nat, totLen: nat): (h: seq<nat>)
    requires ValidCtx(c) && proto < 256
    ensures |h| == 20
  {
    var h := Ipv4Fields(c, proto, totLen);
    WithCheck(h, Ipv4Csum(h))
  }

  function OuterUdp(sport: nat, dport: nat, len: nat): (h: seq<nat>)
    ensures |h| == 8
  {
    Be16(sport) + Be16(dport) + Be16(len) + [0, 0]
  }

  function InnerProto(c: Ctx): nat { if c.family == AF_INET6 then IPPROTO_IPV6 else IPPROTO_IPIP }

  function GueHeader(c: Ctx): (h: seq<nat>)
    ensures |h| == 4
  {
    [0, InnerProto(c), 0, 0]
  }

  function VxlanHeader(vni: nat): (h: seq<nat>)
    ensures |h| == 8
  {
    [0x08, 0, 0, 0, vni / 65536 % 256, vni / 256 % 256, vni % 256, 0]
  }

  // ---- the emitted frames ----------------------------------------------------------------------

  /** Ethernet header of the frame with its type set to IPv4. */
  function RelocatedEth(f: seq<nat>): (eth: seq<nat>)
    requires |f| >= ETH_HLEN
    ensures |eth| == ETH_HLEN
  {
    f[..12] + [0x08, 0x00]
  }

  function IpipFrame(c: Ctx, f: seq<nat>): seq<nat>
    requires ValidCtx(c) && |f| >= ETH_HLEN && c.pktLen >= ETH_HLEN
  {
    RelocatedEth(f) + OuterIpv4(c, InnerProto(c), OVERHEAD_IPIP + c.pktLen - ETH_HLEN) + f[ETH_HLEN..]
  }

  function GueDport(c: Ctx): nat { if c.encapDport != 0 then c.encapDport else GUE_DPORT_DEFAULT }

  function VxlanDport(c: Ctx): nat { if c.encapDport != 0 then c.encapDport else VXLAN_DPORT_DEFAULT }

  function GueFrame(c: Ctx, f: seq<nat>): seq<nat>
    requires ValidCtx(c) && |f| >= ETH_HLEN && c.pktLen >= ETH_HLEN
  {
    var inner := c.pktLen - ETH_HLEN;
    RelocatedEth(f) + OuterIpv4(c, IPPROTO_UDP, OVERHEAD_GUE + inner) + OuterUdp(c.sport, GueDport(c), 12 + inner) + GueHeader(c) +
    f[ETH_HLEN..]
  }

  function VxlanFrame(c: Ctx, f: seq<nat>): seq<nat>
    requires ValidCtx(c) && |f| >= ETH_HLEN && c.pktLen >= ETH_HLEN
  {
    var inner := c.pktLen - ETH_HLEN;
    (f[6..12] + f[..6] + [0x08, 0x00]) + OuterIpv4(c, IPPROTO_UDP, OVERHEAD_VXLAN + inner) +
    OuterUdp(c.sport, VxlanDport(c), 30 + inner) + VxlanHeader(c.vni) + (c.innerMac + f[..6] + f[12..])
  }

  // ---- the packet buffer -------------------------------------------------------------------------

  /** A frame with some bytes replaced. */
  ghost function Put(f: seq<nat>, off: nat, bytes: seq<nat>): (r: seq<nat>)
    requires off + |bytes| <= |f|
    ensures |r| == |f|
  {
    f[..off] + bytes + f[off + |bytes|..]
  }

  /** Two adjoining stores are one. */
  lemma PutAdjoining(f: seq<nat>, off: nat, a: seq<nat>, b: seq<nat>)
    requires off + |a| + |b| <= |f|
    ensures Put(Put(f, off, a), off + |a|, b) == Put(f, off, a + b)
  {
  }

  /** A store that fills the room in front of a suffix leaves exactly that suffix. */
  lemma PutFront(room: seq<nat>, f: seq<nat>, head: seq<nat>, keep: nat)
    requires keep <= |f| && |head| == |room| + keep
    ensures Put(room + f, 0, head) == head + f[keep..]
  {
  }

  /** Four adjoining headers, stored in two pairs, up to where the kept suffix starts. */
  lemma FourHeaders(room: seq<nat>, f: seq<nat>, a: seq<nat>, b: seq<nat>, c: seq<nat>, d: seq<nat>, keep: nat)
    requires keep <= |f| && |a| + |b| + |c| + |d| == |room| + keep
    ensures Put(Put(room + f, 0, a + b), |a| + |b|, c + d) == a + b + c + d + f[keep..]
  {
    PutAdjoining(room + f, 0, a + b, c + d);
    PutFront(room, f, a + b + (c + d), keep);
  }

  /** Replacing the front of the frame behind the room. */
  lemma FixUp(room: seq<nat>, f: seq<nat>, bytes: seq<nat>)
    requires |bytes| <= |f|
    ensures Put(room + f, |room|, bytes) == room + (bytes + f[|bytes|..])
  {
  }

  class XdpBuff {
    const mem: array<nat>
    var data: nat
    const end: nat

    ghost predicate Valid()
      reads this
    {
      data <= end <= mem.Length
    }

    ghost function Frame(): seq<nat>
      reads this, mem
      requires Valid()
    {
      mem[data..end]
    }

    constructor (mem: array<nat>, data: nat, end: nat)
      requires data <= end <= mem.Length
      ensures Valid() && this.mem == mem && this.data == data && this.end == end
    {
      this.mem, this.data, this.end := mem, data, end;
    }

    /** Moves the head back; fails when the headroom is too small. */
    method AdjustHead(delta: nat) returns (ok: bool)
      requires Valid()
      modifies this`data
      ensures Valid()
      ensures ok <==> old(data) >= delta
      ensures ok ==> data == old(data) - delta && Frame() == mem[data..old(data)] + old(Frame())
      ensures !ok ==> data == old(data)
    {
      ok := data >= delta;
      if ok {
        data := data - delta;
      }
    }

    /** Copies bytes into the frame. */
    method Store(off: nat, bytes: seq<nat>)
      requires Valid() && off + |bytes| <= end - data
      modifies mem
      ensures Frame() == Put(old(Frame()), off, bytes)
    {
      var at := data + off;
      for i := 0 to |bytes|
        invariant forall j :: 0 <= j < i ==> mem[at + j] == bytes[j]
        invariant forall j :: 0 <= j < mem.Length && !(at <= j < at + i) ==> mem[j] == old(mem[j])
      {
        mem[at + i] := bytes[i];
      }
    }

    /** Copies two adjoining headers into the frame, one after the other. */
    method StoreTwo(off: nat, first: seq<nat>, second: seq<nat>)
      requires Valid() && off + |first| + |second| <= end - data
      modifies mem
      ensures Frame() == Put(old(Frame()), off, first + second)
    {
      PutAdjoining(Frame(), off, first, second);
      Store(off, first);
      Store(off + |first|, second);
    }

    method Load(off: nat, len: nat) returns (bytes: seq<nat>)
      requires Valid() && off + len <= end - data
      ensures bytes == Frame()[off..off + len]
    {
      bytes := mem[data..end][off..off + len];
    }
  }

  /** The egress size check; zero means it is off. */
  predicate FrameFits(c: Ctx, overhead: nat) {
    c.maxFrame == 0 || c.pktLen + overhead <= c.maxFrame
  }

  /** What a unit reports: the length guard, the size guard, then the headroom. */
  ghost predicate Outcome(rc: Ret, c: Ctx, frameLen: nat, headroom: nat, overhead: nat) {
    rc == if c.pktLen < ETH_HLEN then DropEncapLength
          else if !FrameFits(c, overhead) then DropFrameTooBig
          else if headroom < overhead || frameLen < ETH_HLEN then DropAdjustHead
          else Ok
  }

  /** Moves the head back by `overhead` and checks that the outer headers fit. */
  method MakeRoom(x: XdpBuff, overhead: nat) returns (ok: bool, ghost room: seq<nat>)
    requires x.Valid()
    modifies x`data
    ensures x.Valid()
    ensures ok <==> old(x.data) >= overhead && |old(x.Frame())| >= ETH_HLEN
    ensures ok ==> |room| == overhead && x.Frame() == room + old(x.Frame())
    ensures old(x.data) < overhead ==> x.data == old(x.data)
  {
    ghost var before := x.data;
    ok := x.AdjustHead(overhead);
    room := x.mem[x.data..before];
    if ok && ETH_HLEN + overhead > x.end - x.data {
      ok := false;
    }
  }

  /** Relocates the arriving Ethernet header to the front and stores the outer IPv4 header,
      which overwrites the place it was read from. */
  method WriteOuterL3(x: XdpBuff, overhead: nat, iph: seq<nat>, ghost room: seq<nat>, ghost f: seq<nat>)
    requires x.Valid() && x.Frame() == room + f && |room| == overhead >= |iph| == 20 && |f| >= ETH_HLEN
    modifies x.mem
    ensures x.Frame() == Put(room + f, 0, RelocatedEth(f) + iph)
  {
    var eth := x.Load(overhead, ETH_HLEN);
    assert eth == f[..ETH_HLEN];
    assert eth[..12] + [0x08, 0x00] == RelocatedEth(f);
    x.StoreTwo(0, eth[..12] + [0x08, 0x00], iph);
  }

  method IpipWriteOuter(x: XdpBuff, iph: seq<nat>, ghost room: seq<nat>, ghost f: seq<nat>)
    requires x.Valid() && x.Frame() == room + f && |room| == OVERHEAD_IPIP && |iph| == 20 && |f| >= ETH_HLEN
    modifies x.mem
    ensures x.Frame() == RelocatedEth(f) + iph + f[ETH_HLEN..]
  {
    WriteOuterL3(x, OVERHEAD_IPIP, iph, room, f);
    PutFront(room, f, RelocatedEth(f) + iph, ETH_HLEN);
  }

  method GueWriteOuter(x: XdpBuff, iph: seq<nat>, udp: seq<nat>, gue: seq<nat>, ghost room: seq<nat>, ghost f: seq<nat>)
    requires x.Valid() && x.Frame() == room + f && |room| == OVERHEAD_GUE && |f| >= ETH_HLEN
    requires |iph| == 20 && |udp| == 8 && |gue| == 4
    modifies x.mem
    ensures x.Frame() == RelocatedEth(f) + iph + udp + gue + f[ETH_HLEN..]
  {
    WriteOuterL3(x, OVERHEAD_GUE, iph, room, f);
    x.StoreTwo(ETH_HLEN + 20, udp, gue);
    FourHeaders(room, f, RelocatedEth(f), iph, udp, gue, ETH_HLEN);
  }

  /** The arriving Ethernet header stays where it is and becomes the inner one; only its
      addresses are replaced. */
  method VxlanWriteOuter(x: XdpBuff, innerMac: seq<nat>, dst: seq<nat>, src: seq<nat>, iph: seq<nat>, udp: seq<nat>, vxlan: seq<nat>,
                         ghost room: seq<nat>, ghost f: seq<nat>)
    requires x.Valid() && x.Frame() == room + f && |room| == OVERHEAD_VXLAN && |f| >= ETH_HLEN
    requires |innerMac| == 6 && |dst| == 6 && |src| == 6 && |iph| == 20 && |udp| == 8 && |vxlan| == 8
    modifies x.mem
    ensures x.Frame() == (src + dst + [0x08, 0x00]) + iph + udp + vxlan + (innerMac + dst + f[12..])
  {
    x.StoreTwo(OVERHEAD_VXLAN, innerMac, dst);
    FixUp(room, f, innerMac + dst);
    ghost var fixedUp := innerMac + dst + f[12..];
    x.StoreTwo(0, src + dst + [0x08, 0x00], iph);
    x.StoreTwo(ETH_HLEN + 20, udp, vxlan);
    FourHeaders(room, fixedUp, src + dst + [0x08, 0x00], iph, udp, vxlan, 0);
  }

  method IpipBuild(x: XdpBuff, c: Ctx, ghost room: seq<nat>, ghost f: seq<nat>)
    requires x.Valid() && ValidCtx(c) && c.pktLen >= ETH_HLEN
    requires x.Frame() == room + f && |room| == OVERHEAD_IPIP && |f| >= ETH_HLEN
    modifies x.mem
    ensures x.Frame() == IpipFrame(c, f)
  {
    IpipWriteOuter(x, OuterIpv4(c, InnerProto(c), OVERHEAD_IPIP + c.pktLen - ETH_HLEN), room, f);
  }

  method GueBuild(x: XdpBuff, c: Ctx, ghost room: seq<nat>, ghost f: seq<nat>)
    requires x.Valid() && ValidCtx(c) && c.pktLen >= ETH_HLEN
    requires x.Frame() == room + f && |room| == OVERHEAD_GUE && |f| >= ETH_HLEN
    modifies x.mem
    ensures x.Frame() == GueFrame(c, f)
  {
    var inner := c.pktLen - ETH_HLEN;
    GueWriteOuter(x, OuterIpv4(c, IPPROTO_UDP, OVERHEAD_GUE + inner), OuterUdp(c.sport, GueDport(c), 8 + 4 + inner), GueHeader(c), room, f);
  }

  method IpipEncap(x: XdpBuff, c: Ctx) returns (rc: Ret, c': Ctx)
    requires x.Valid() && ValidCtx(c)
    modifies x`data, x.mem
    ensures x.Valid() && Outcome(rc, c, |old(x.Frame())|, old(x.data), OVERHEAD_IPIP)
    ensures rc == Ok ==> x.Frame() == IpipFrame(c, old(x.Frame()))
    ensures rc != Ok && |old(x.Frame())| >= ETH_HLEN ==> x.data == old(x.data) && x.Frame() == old(x.Frame())
    ensures rc == Ok ==> c' == c.(l3Off := ETH_HLEN, pktLen := (c.pktLen + OVERHEAD_IPIP) % 65536)
    ensures rc != Ok ==> c' == c
  {
    c' := c;
    if c.pktLen < ETH_HLEN {
      return DropEncapLength, c;
    }
    if !FrameFits(c, OVERHEAD_IPIP) {
      return DropFrameTooBig, c;
    }
    ghost var f := x.Frame();
    var inner := c.pktLen - ETH_HLEN;
    var ok;
    ghost var room;
    ok, room := MakeRoom(x, OVERHEAD_IPIP);
    if !ok {
      return DropAdjustHead, c;
    }
    IpipBuild(x, c, room, f);
    return Ok, c.(l3Off := ETH_HLEN, pktLen := (ETH_HLEN + OVERHEAD_IPIP + inner) % 65536);
  }

  method GueEncap(x: XdpBuff, c: Ctx) returns (rc: Ret, c': Ctx)
    requires x.Valid() && ValidCtx(c)
    modifies x`data, x.mem
    ensures x.Valid() && Outcome(rc, c, |old(x.Frame())|, old(x.data), OVERHEAD_GUE)
    ensures rc == Ok ==> x.Frame() == GueFrame(c, old(x.Frame()))
    ensures rc != Ok && |old(x.Frame())| >= ETH_HLEN ==> x.data == old(x.data) && x.Frame() == old(x.Frame())
    ensures rc == Ok ==> c' == c.(l3Off := ETH_HLEN, pktLen := (c.pktLen + OVERHEAD_GUE) % 65536)
    ensures rc != Ok ==> c' == c
  {
    c' := c;
    if c.pktLen < ETH_HLEN {
      return DropEncapLength, c;
    }
    if !FrameFits(c, OVERHEAD_GUE) {
      return DropFrameTooBig, c;
    }
    ghost var f := x.Frame();
    var inner := c.pktLen - ETH_HLEN;
    var ok;
    ghost var room;
    ok, room := MakeRoom(x, OVERHEAD_GUE);
    if !ok {
      return DropAdjustHead, c;
    }
    GueBuild(x, c, room, f);
    return Ok, c.(l3Off := ETH_HLEN, pktLen := (ETH_HLEN + OVERHEAD_GUE + inner) % 65536);
  }

  /** Builds the outer headers and writes them. */
  method VxlanBuild(x: XdpBuff, c: Ctx, dst: seq<nat>, src: seq<nat>, ghost room: seq<nat>, ghost f: seq<nat>)
    requires x.Valid() && ValidCtx(c) && c.pktLen >= ETH_HLEN
    requires x.Frame() == room + f && |room| == OVERHEAD_VXLAN && |f| >= ETH_HLEN && dst == f[..6] && src == f[6..12]
    modifies x.mem
    ensures x.Frame() == VxlanFrame(c, f)
  {
    var inner := c.pktLen - ETH_HLEN;
    VxlanWriteOuter(x, c.innerMac, dst, src, OuterIpv4(c, IPPROTO_UDP, OVERHEAD_VXLAN + inner),
                    OuterUdp(c.sport, VxlanDport(c), 8 + 8 + ETH_HLEN + inner), VxlanHeader(c.vni), room, f);
  }

  method VxlanEncap(x: XdpBuff, c: Ctx) returns (rc: Ret, c': Ctx)
    requires x.Valid() && ValidCtx(c)
    modifies x`data, x.mem
    ensures x.Valid()
    ensures |old(x.Frame())| >= ETH_HLEN ==> Outcome(rc, c, |old(x.Frame())|, old(x.data), OVERHEAD_VXLAN)
    ensures |old(x.Frame())| < ETH_HLEN ==>
              rc == if c.pktLen < ETH_HLEN then DropEncapLength else if !FrameFits(c, OVERHEAD_VXLAN) then DropFrameTooBig else DropParseError
    ensures rc != Ok ==> x.data == old(x.data) && x.Frame() == old(x.Frame())
    ensures rc == Ok ==> x.Frame() == VxlanFrame(c, old(x.Frame()))
    ensures rc == Ok ==> c' == c.(l3Off := ETH_HLEN, pktLen := (c.pktLen + OVERHEAD_VXLAN) % 65536)
    ensures rc != Ok ==> c' == c
  {
    c' := c;
    if c.pktLen < ETH_HLEN {
      return DropEncapLength, c;
    }
    if !FrameFits(c, OVERHEAD_VXLAN) {
      return DropFrameTooBig, c;
    }
    ghost var f := x.Frame();
    var inner := c.pktLen - ETH_HLEN;
    if ETH_HLEN > x.end - x.data {
      return DropParseError, c;
    }
    var arrivingDst := x.Load(0, 6);
    var arrivingSrc := x.Load(6, 6);
    var ok;
    ghost var room;
    ok, room := MakeRoom(x, OVERHEAD_VXLAN);
    if !ok {
      return DropAdjustHead, c;
    }
    VxlanBuild(x, c, arrivingDst, arrivingSrc, room, f);
    return Ok, c.(l3Off := ETH_HLEN, pktLen := (ETH_HLEN + OVERHEAD_VXLAN + inner) % 65536);
  }
}
