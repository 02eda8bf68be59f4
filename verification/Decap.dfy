/** The receiving end of a tunnel: what a backend gets back when it checks the outer headers
    and strips them by the lengths they carry. */
module Decap {
  import opened Checksum
  import opened Types
  import opened Encap
  import Parser

  datatype Payload = Refused | Payload(tag: nat, bytes: seq<nat>)

  function Version4NoOptions(): nat { 0x45 }

  /** Accepts an IPv4 packet in an Ethernet frame: a header without options whose checksum
      verifies and whose total length lies within the frame. The tag is the protocol. */
  function Ipv4Payload(g: seq<nat>): Payload {
    if |g| < 34 || g[12] != 0x08 || g[13] != 0 then Refused
    else AcceptIpv4(g[14..34], g[34..])
  }

  function AcceptIpv4(h: seq<nat>, rest: seq<nat>): Payload
    requires |h| == 20
  {
    if h[0] != Version4NoOptions() || CsumFold(Rfc1071Sum(h)) != 0 then Refused
    else if Be16At(h, 2) < 20 || Be16At(h, 2) - 20 > |rest| then Refused
    else Payload(h[9], rest[..Be16At(h, 2) - 20])
  }

  /** Accepts a UDP datagram whose length field covers exactly the segment. The tag is the
      destination port. */
  function UdpPayload(s: seq<nat>): Payload {
    if |s| < 8 || Be16At(s, 4) != |s| then Refused else Payload(Be16At(s, 2), s[8..])
  }

  /** The inner protocol number and the inner packet of an IPIP frame. */
  function DecapIpip(g: seq<nat>): Payload { Ipv4Payload(g) }

  /** The inner packet of a GUE frame received on `dport`, with its protocol. */
  function DecapGue(g: seq<nat>, dport: nat): Payload {
    match Ipv4Payload(g)
    case Refused => Refused
    case Payload(proto, s) =>
      if proto != IPPROTO_UDP then Refused else
      match UdpPayload(s)
      case Refused => Refused
      case Payload(port, t) =>
        if port != dport || |t| < 4 || t[0] != 0 || t[2] != 0 || t[3] != 0 then Refused else Payload(t[1], t[4..])
  }

  /** The inner frame of a VXLAN frame received on `dport`, tagged with its network identifier. */
  function DecapVxlan(g: seq<nat>, dport: nat): Payload {
    match Ipv4Payload(g)
    case Refused => Refused
    case Payload(proto, s) =>
      if proto != IPPROTO_UDP then Refused else
      match UdpPayload(s)
      case Refused => Refused
      case Payload(port, t) =>
        if port != dport || |t| < 8 || t[0] != 0x08 then Refused
        else Payload((t[4] * 256 + t[5]) * 256 + t[6], t[8..])
  }

  // ---- what the outer headers say -----------------------------------------------------------

  lemma FieldsAreBytes(c: Ctx, proto: nat, totLen: nat)
    requires ValidCtx(c) && proto < 256
    ensures IsBytes(Ipv4Fields(c, proto, totLen))
  {
    assert IsBytes([0x45, c.tos]);
    assert IsBytes(Be16(totLen));
    assert IsBytes([0, 0, 0x40, 0, OUTER_TTL, proto, 0, 0]);
  }

  /** The receiver accepts the outer header and reads back the protocol and the low 16 bits of
      the length. */
  lemma OuterReads(c: Ctx, proto: nat, totLen: nat)
    requires ValidCtx(c) && proto < 256
    ensures var h := OuterIpv4(c, proto, totLen);
            h[0] == Version4NoOptions() && CsumFold(Rfc1071Sum(h)) == 0 && Be16At(h, 2) == totLen % 65536 && h[9] == proto
  {
    FieldsAreBytes(c, proto, totLen);
    FieldsRead(c, proto, totLen);
    var h := Ipv4Fields(c, proto, totLen);
    ChecksumVerifies(h);
    CheckKeepsFields(h, Ipv4Csum(h));
  }

  lemma Be16Value(x: nat)
    ensures Be16(x)[0] * 256 + Be16(x)[1] == x % 65536
  {
    var q := x / 256;
    DivisionUnique(x, 65536, q / 256, q % 256 * 256 + x % 256);
  }

  lemma FieldsRead(c: Ctx, proto: nat, totLen: nat)
    requires ValidCtx(c) && proto < 256
    ensures var h := Ipv4Fields(c, proto, totLen); h[0] == Version4NoOptions() && Be16At(h, 2) == totLen % 65536 && h[9] == proto
  {
    var h, len := Ipv4Fields(c, proto, totLen), Be16(totLen);
    Be16Value(totLen);
    assert h[2] == len[0] && h[3] == len[1];
  }

  lemma CheckKeepsFields(h: seq<nat>, check: nat)
    requires |h| == 20
    ensures var w := WithCheck(h, check); w[0] == h[0] && Be16At(w, 2) == Be16At(h, 2) && w[9] == h[9]
  {
  }

  /** Splitting a frame into its first three parts. */
  lemma Parts(eth: seq<nat>, iph: seq<nat>, rest: seq<nat>)
    requires |eth| == 14 && |iph| == 20
    ensures (eth + iph + rest)[14..34] == iph && (eth + iph + rest)[34..] == rest
  {
  }

  /** What the outer IPv4 layer delivers, as a function of its length field. */
  lemma OuterDelivers(eth: seq<nat>, c: Ctx, proto: nat, rest: seq<nat>, totLen: nat)
    requires ValidCtx(c) && proto < 256 && |eth| == 14 && eth[12..] == [0x08, 0x00] && totLen == 20 + |rest|
    ensures var g := eth + OuterIpv4(c, proto, totLen) + rest;
            Ipv4Payload(g) == (if totLen <= 65535 then Payload(proto, rest)
                               else if totLen % 65536 < 20 then Refused
                               else Payload(proto, rest[..totLen % 65536 - 20]))
  {
    var iph := OuterIpv4(c, proto, totLen);
    OuterReads(c, proto, totLen);
    Delivered(eth, iph, rest);
    Accepted(iph, proto, rest, totLen);
  }

  lemma Accepted(iph: seq<nat>, proto: nat, rest: seq<nat>, totLen: nat)
    requires |iph| == 20 && iph[0] == Version4NoOptions() && CsumFold(Rfc1071Sum(iph)) == 0
    requires Be16At(iph, 2) == totLen % 65536 && iph[9] == proto && totLen == 20 + |rest|
    ensures AcceptIpv4(iph, rest) == (if totLen <= 65535 then Payload(proto, rest)
                                      else if totLen % 65536 < 20 then Refused
                                      else Payload(proto, rest[..totLen % 65536 - 20]))
  {
    assert rest[..|rest|] == rest;
  }

  lemma Delivered(eth: seq<nat>, iph: seq<nat>, rest: seq<nat>)
    requires |eth| == 14 && |iph| == 20 && eth[12..] == [0x08, 0x00]
    ensures Ipv4Payload(eth + iph + rest) == AcceptIpv4(iph, rest)
  {
    Parts(eth, iph, rest);
    var g := eth + iph + rest;
    assert g[12] == eth[12..][0] && g[13] == eth[12..][1];
  }

  lemma UdpDelivers(sport: nat, dport: nat, body: seq<nat>)
    requires dport < 65536 && 8 + |body| < 65536
    ensures UdpPayload(OuterUdp(sport, dport, 8 + |body|) + body) == Payload(dport, body)
  {
  }

  // ---- round trips -------------------------------------------------------------------------------

  /** IPIP: stripping by the emitted length gives back the arriving packet, byte for byte and
      with its family, exactly when the total length does not wrap. */
  lemma IpipRoundTrip(c: Ctx, f: seq<nat>)
    requires ValidCtx(c) && |f| == c.pktLen >= ETH_HLEN
    ensures |IpipFrame(c, f)| == |f| + OVERHEAD_IPIP
    ensures DecapIpip(IpipFrame(c, f)) == Payload(InnerProto(c), f[ETH_HLEN..]) <==> c.pktLen + OVERHEAD_IPIP <= 65535 + ETH_HLEN
  {
    OuterDelivers(RelocatedEth(f), c, InnerProto(c), f[ETH_HLEN..], OVERHEAD_IPIP + c.pktLen - ETH_HLEN);
  }

  /** A segment cut short no longer matches the length field it starts with. */
  lemma CutSegmentIsShorter(s: seq<nat>, n: nat)
    requires n < |s|
    ensures UdpPayload(s[..n]) == Refused || |UdpPayload(s[..n]).bytes| + 8 < |s|
  {
  }

  /** The frame grouped as Ethernet header, outer IPv4 header and UDP segment. */
  lemma Regroup(eth: seq<nat>, iph: seq<nat>, udp: seq<nat>, shim: seq<nat>, body: seq<nat>)
    ensures eth + iph + udp + shim + body == eth + iph + (udp + (shim + body))
  {
  }

  lemma GueShim(c: Ctx, body: seq<nat>)
    ensures var t := GueHeader(c) + body; t[0] == 0 && t[1] == InnerProto(c) && t[2] == 0 && t[3] == 0 && t[4..] == body
  {
  }

  /** The two outer layers together deliver the datagram's body, unless the total length wraps;
      then nothing as long as the body comes out. */
  lemma TunnelDelivers(eth: seq<nat>, c: Ctx, dport: nat, t: seq<nat>, totLen: nat)
    requires ValidCtx(c) && dport < 65536 && |eth| == 14 && eth[12..] == [0x08, 0x00] && totLen == 28 + |t|
    ensures var outer := Ipv4Payload(eth + OuterIpv4(c, IPPROTO_UDP, totLen) + (OuterUdp(c.sport, dport, 8 + |t|) + t));
            if totLen <= 65535 then outer.Payload? && outer.tag == IPPROTO_UDP && UdpPayload(outer.bytes) == Payload(dport, t)
            else outer.Payload? && UdpPayload(outer.bytes).Payload? ==> |UdpPayload(outer.bytes).bytes| < |t|
  {
    var s := OuterUdp(c.sport, dport, 8 + |t|) + t;
    OuterDelivers(eth, c, IPPROTO_UDP, s, totLen);
    if totLen <= 65535 {
      UdpDelivers(c.sport, dport, t);
    } else if totLen % 65536 >= 20 {
      CutSegmentIsShorter(s, totLen % 65536 - 20);
    }
  }

  /** GUE: the receiver gets back the arriving packet, byte for byte and with its family,
      exactly when the total length does not wrap. */
  lemma GueRoundTrip(c: Ctx, f: seq<nat>)
    requires ValidCtx(c) && |f| == c.pktLen >= ETH_HLEN
    ensures |GueFrame(c, f)| == |f| + OVERHEAD_GUE
    ensures DecapGue(GueFrame(c, f), GueDport(c)) == Payload(InnerProto(c), f[ETH_HLEN..]) <==>
            c.pktLen + OVERHEAD_GUE <= 65535 + ETH_HLEN
  {
    var body := f[ETH_HLEN..];
    var totLen := OVERHEAD_GUE + |body|;
    GueRegroup(c, f, totLen);
    TunnelDelivers(RelocatedEth(f), c, GueDport(c), GueHeader(c) + body, totLen);
    GueShim(c, body);
  }

  lemma GueRegroup(c: Ctx, f: seq<nat>, totLen: nat)
    requires ValidCtx(c) && |f| == c.pktLen >= ETH_HLEN && totLen == OVERHEAD_GUE + |f| - ETH_HLEN
    ensures var t := GueHeader(c) + f[ETH_HLEN..];
            GueFrame(c, f) == RelocatedEth(f) + OuterIpv4(c, IPPROTO_UDP, totLen) + (OuterUdp(c.sport, GueDport(c), 8 + |t|) + t)
  {
    var iph := OuterIpv4(c, IPPROTO_UDP, totLen);
    Regroup(RelocatedEth(f), iph, OuterUdp(c.sport, GueDport(c), 12 + |f| - ETH_HLEN), GueHeader(c), f[ETH_HLEN..]);
  }

  lemma VxlanShim(vni: nat, body: seq<nat>)
    ensures var t := VxlanHeader(vni) + body;
            t[0] == 0x08 && (t[4] * 256 + t[5]) * 256 + t[6] == vni % 0x100_0000 && t[8..] == body
  {
    ThreeBytes(vni, vni / 256, vni / 256 / 256);
  }

  lemma ThreeBytes(x: nat, y: nat, z: nat)
    requires y == x / 256 && z == y / 256
    ensures z == x / 65536 && ((z % 256) * 256 + y % 256) * 256 + x % 256 == x % 0x100_0000
  {
    DivisionUnique(x, 65536, z, y % 256 * 256 + x % 256);
    DivisionUnique(x, 0x100_0000, z / 256, ((z % 256) * 256 + y % 256) * 256 + x % 256);
  }

  /** The arriving frame with the addresses a VXLAN backend expects. */
  function InnerFrame(c: Ctx, f: seq<nat>): seq<nat>
    requires |f| >= ETH_HLEN
  {
    c.innerMac + f[..6] + f[12..]
  }

  /** VXLAN: the backend gets the arriving frame on the configured network, readdressed to its
      inner MAC and sent from the address it arrived at, exactly when the length does not wrap. */
  lemma VxlanRoundTrip(c: Ctx, f: seq<nat>)
    requires ValidCtx(c) && |f| == c.pktLen >= ETH_HLEN
    ensures |VxlanFrame(c, f)| == |f| + OVERHEAD_VXLAN
    ensures DecapVxlan(VxlanFrame(c, f), VxlanDport(c)) == Payload(c.vni % 0x100_0000, InnerFrame(c, f)) <==>
            c.pktLen + OVERHEAD_VXLAN <= 65535 + ETH_HLEN
    ensures InnerFrame(c, f)[ETH_HLEN..] == f[ETH_HLEN..]
  {
    InnerPacketKept(c, f);
    VxlanDelivers(c, f, InnerFrame(c, f), VxlanHeader(c.vni) + InnerFrame(c, f), OVERHEAD_VXLAN + |f| - ETH_HLEN);
  }

  lemma InnerPacketKept(c: Ctx, f: seq<nat>)
    requires |c.innerMac| == 6 && |f| >= ETH_HLEN
    ensures |InnerFrame(c, f)| == |f| && InnerFrame(c, f)[ETH_HLEN..] == f[ETH_HLEN..]
  {
  }

  lemma VxlanDelivers(c: Ctx, f: seq<nat>, body: seq<nat>, t: seq<nat>, totLen: nat)
    requires ValidCtx(c) && |f| == c.pktLen >= ETH_HLEN && totLen == OVERHEAD_VXLAN + |f| - ETH_HLEN
    requires body == InnerFrame(c, f) && t == VxlanHeader(c.vni) + body
    ensures DecapVxlan(VxlanFrame(c, f), VxlanDport(c)) == Payload(c.vni % 0x100_0000, body) <==> totLen <= 65535
  {
    VxlanRegroup(c, f, totLen);
    TunnelDelivers(f[6..12] + f[..6] + [0x08, 0x00], c, VxlanDport(c), t, totLen);
    VxlanShim(c.vni, body);
    VxlanBody(VxlanFrame(c, f), VxlanDport(c), c.vni % 0x100_0000, t, body, totLen);
  }

  /** What the datagram's body holds for a VXLAN receiver. */
  lemma VxlanBody(g: seq<nat>, dport: nat, vni: nat, t: seq<nat>, body: seq<nat>, totLen: nat)
    requires |t| >= 8 && t[0] == 0x08 && (t[4] * 256 + t[5]) * 256 + t[6] == vni && t[8..] == body
    requires var outer := Ipv4Payload(g);
             if totLen <= 65535 then outer.Payload? && outer.tag == IPPROTO_UDP && UdpPayload(outer.bytes) == Payload(dport, t)
             else outer.Payload? && UdpPayload(outer.bytes).Payload? ==> |UdpPayload(outer.bytes).bytes| < |t|
    ensures DecapVxlan(g, dport) == Payload(vni, body) <==> totLen <= 65535
  {
  }

  lemma VxlanRegroup(c: Ctx, f: seq<nat>, totLen: nat)
    requires ValidCtx(c) && |f| == c.pktLen >= ETH_HLEN && totLen == OVERHEAD_VXLAN + |f| - ETH_HLEN
    ensures var t := VxlanHeader(c.vni) + InnerFrame(c, f);
            VxlanFrame(c, f) == (f[6..12] + f[..6] + [0x08, 0x00]) + OuterIpv4(c, IPPROTO_UDP, totLen) +
                                (OuterUdp(c.sport, VxlanDport(c), 8 + |t|) + t)
  {
    var iph := OuterIpv4(c, IPPROTO_UDP, totLen);
    Regroup(f[6..12] + f[..6] + [0x08, 0x00], iph, OuterUdp(c.sport, VxlanDport(c), 16 + |f|), VxlanHeader(c.vni), InnerFrame(c, f));
  }

  // ---- what is on the wire ---------------------------------------------------------------------------

  /** The outer IPv4 header as a router reads it: no options, no id, not to be fragmented, the
      configured TTL, and the two tunnel ends in their places. */
  predicate OuterSays(g: seq<nat>, c: Ctx, proto: nat, len: nat) {
    && |g| >= 34 && g[12..15] == [0x08, 0x00, 0x45] && g[15] == c.tos && Be16At(g, 16) == len % 65536
    && Be16At(g, 18) == 0 && Be16At(g, 20) == 0x4000 && g[22] == 64 && g[23] == proto
    && g[26..30] == c.tunnelSrc && g[30..34] == c.addr
  }

  /** The outer UDP header, which carries no checksum. */
  predicate UdpSays(g: seq<nat>, c: Ctx, dport: nat, len: nat) {
    && |g| >= 42 && Be16At(g, 34) == c.sport && Be16At(g, 36) == dport && Be16At(g, 38) == len % 65536 && Be16At(g, 40) == 0
  }

  lemma HeaderSays(c: Ctx, proto: nat, totLen: nat)
    requires ValidCtx(c) && proto < 256
    ensures var h := OuterIpv4(c, proto, totLen);
            && h[0] == 0x45 && h[1] == c.tos && h[4] == h[5] == 0 && h[6] == 0x40 && h[7] == 0 && h[8] == 64
            && h[12..16] == c.tunnelSrc && h[16..20] == c.addr
  {
    var w := Ipv4Fields(c, proto, totLen);
    var h := OuterIpv4(c, proto, totLen);
    assert forall i :: 0 <= i < 20 && i != 10 && i != 11 ==> h[i] == w[i];
    assert w[12..16] == c.tunnelSrc && w[16..20] == c.addr;
    assert h[12..16] == w[12..16] && h[16..20] == w[16..20];
  }

  lemma FrameSays(eth: seq<nat>, c: Ctx, proto: nat, totLen: nat, rest: seq<nat>)
    requires ValidCtx(c) && proto < 256 && |eth| == 14 && eth[12..] == [0x08, 0x00]
    ensures var g := eth + OuterIpv4(c, proto, totLen) + rest;
            g[..12] == eth[..12] && OuterSays(g, c, proto, totLen) && g[34..] == rest
  {
    var iph := OuterIpv4(c, proto, totLen);
    var g := eth + iph + rest;
    HeaderSays(c, proto, totLen);
    OuterReads(c, proto, totLen);
    assert g[12] == eth[12..][0] && g[13] == eth[12..][1] && g[14] == iph[0];
    assert forall i :: 0 <= i < 20 ==> g[14 + i] == iph[i];
    assert g[14..34] == iph;
    assert g[26..30] == iph[12..16] && g[30..34] == iph[16..20];
    assert Be16At(g, 16) == Be16At(iph, 2);
    assert g[15] == iph[1] && g[18] == iph[4] && g[19] == iph[5] && g[20] == iph[6] && g[21] == iph[7] && g[22] == iph[8] && g[23] == iph[9];
  }

  lemma SegmentSays(g: seq<nat>, c: Ctx, dport: nat, len: nat, t: seq<nat>)
    requires ValidCtx(c) && dport < 65536 && |g| >= 34 && g[34..] == OuterUdp(c.sport, dport, len) + t
    ensures UdpSays(g, c, dport, len) && g[42..] == t
  {
    var udp := OuterUdp(c.sport, dport, len);
    Be16Value(c.sport);
    Be16Value(dport);
    Be16Value(len);
    assert forall i :: 0 <= i < 8 ==> g[34 + i] == g[34..][i] == udp[i];
    assert g[34] == udp[0] && g[35] == udp[1] && g[36] == udp[2] && g[37] == udp[3];
    assert g[38] == udp[4] && g[39] == udp[5] && g[40] == udp[6] && g[41] == udp[7];
    assert udp[0..2] == Be16(c.sport) && udp[2..4] == Be16(dport) && udp[4..6] == Be16(len);
    assert g[42..] == g[34..][8..];
  }

  lemma TunnelSays(g: seq<nat>, eth: seq<nat>, c: Ctx, dport: nat, totLen: nat, t: seq<nat>)
    requires ValidCtx(c) && dport < 65536 && |eth| == 14 && eth[12..] == [0x08, 0x00]
    requires g == eth + OuterIpv4(c, IPPROTO_UDP, totLen) + (OuterUdp(c.sport, dport, 8 + |t|) + t)
    ensures g[..12] == eth[..12] && OuterSays(g, c, 17, totLen) && UdpSays(g, c, dport, 8 + |t|) && g[42..] == t
  {
    FrameSays(eth, c, IPPROTO_UDP, totLen, OuterUdp(c.sport, dport, 8 + |t|) + t);
    SegmentSays(g, c, dport, 8 + |t|, t);
  }

  /** An IPIP frame: the arriving Ethernet addresses, the outer header, and the packet. */
  lemma IpipOnWire(c: Ctx, f: seq<nat>)
    requires ValidCtx(c) && |f| == c.pktLen >= ETH_HLEN && c.family in {2, 10}
    ensures var g := IpipFrame(c, f);
            g[..12] == f[..12] && OuterSays(g, c, if c.family == 10 then 41 else 4, 20 + (|f| - 14)) && g[34..] == f[14..]
  {
    FrameSays(RelocatedEth(f), c, InnerProto(c), OVERHEAD_IPIP + c.pktLen - ETH_HLEN, f[ETH_HLEN..]);
  }

  /** A GUE frame: the same with UDP to the configured port or 6080, and the four-byte header. */
  lemma GueOnWire(c: Ctx, f: seq<nat>)
    requires ValidCtx(c) && |f| == c.pktLen >= ETH_HLEN && c.family in {2, 10}
    ensures var g := GueFrame(c, f);
            && g[..12] == f[..12] && OuterSays(g, c, 17, 32 + (|f| - 14))
            && UdpSays(g, c, if c.encapDport == 0 then 6080 else c.encapDport, 12 + (|f| - 14))
            && g[42..] == [0, if c.family == 10 then 41 else 4, 0, 0] + f[14..]
  {
    var t := GueHeader(c) + f[ETH_HLEN..];
    GueRegroup(c, f, OVERHEAD_GUE + |f| - ETH_HLEN);
    TunnelSays(GueFrame(c, f), RelocatedEth(f), c, GueDport(c), OVERHEAD_GUE + |f| - ETH_HLEN, t);
  }

  lemma Halves(g: seq<nat>, a: seq<nat>, b: seq<nat>, eth: seq<nat>)
    requires |a| == |b| == 6 && |g| >= 12 && eth == a + b + [0x08, 0x00] && g[..12] == eth[..12]
    ensures g[..6] == a && g[6..12] == b
  {
    assert g[..6] == g[..12][..6] && g[6..12] == g[..12][6..12];
  }

  /** A VXLAN frame: the Ethernet addresses exchanged, UDP to the configured port or 4789, the
      network identifier in its three bytes, and the readdressed frame. */
  lemma VxlanOnWire(c: Ctx, f: seq<nat>)
    requires ValidCtx(c) && |f| == c.pktLen >= ETH_HLEN
    ensures var g := VxlanFrame(c, f);
            && g[..6] == f[6..12] && g[6..12] == f[..6] && OuterSays(g, c, 17, 50 + (|f| - 14))
            && UdpSays(g, c, if c.encapDport == 0 then 4789 else c.encapDport, 16 + |f|)
            && g[42..] == [0x08, 0, 0, 0, c.vni / 65536 % 256, c.vni / 256 % 256, c.vni % 256, 0] + (c.innerMac + f[..6] + f[12..])
  {
    var eth, t := f[6..12] + f[..6] + [0x08, 0x00], VxlanHeader(c.vni) + InnerFrame(c, f);
    VxlanRegroup(c, f, OVERHEAD_VXLAN + |f| - ETH_HLEN);
    TunnelSays(VxlanFrame(c, f), eth, c, VxlanDport(c), OVERHEAD_VXLAN + |f| - ETH_HLEN, t);
    Halves(VxlanFrame(c, f), f[6..12], f[..6], eth);
  }

  // ---- from the parser to the far end ------------------------------------------------------------------

  /** The receivers get the packet out of all three tunnels, as `inner`, exactly when the outer length does not wrap. */
  ghost predicate Arrives(c: Ctx, f: seq<nat>, inner: nat)
    requires ValidCtx(c) && |f| == c.pktLen >= 14
  {
    && (DecapIpip(IpipFrame(c, f)) == Payload(inner, f[14..]) <==> |f| + 20 <= 65549)
    && (DecapGue(GueFrame(c, f), GueDport(c)) == Payload(inner, f[14..]) <==> |f| + 32 <= 65549)
    && (DecapVxlan(VxlanFrame(c, f), VxlanDport(c)) == Payload(c.vni % 0x100_0000, c.innerMac + f[..6] + f[12..]) <==> |f| + 50 <= 65549)
  }

  lemma AllArrive(c: Ctx, f: seq<nat>)
    requires ValidCtx(c) && |f| == c.pktLen >= ETH_HLEN
    ensures Arrives(c, f, InnerProto(c))
  {
    IpipRoundTrip(c, f);
    GueRoundTrip(c, f);
    VxlanRoundTrip(c, f);
  }

  lemma ParsedFamily(f: seq<nat>)
    requires Parser.Parse(f).rc.Ok?
    ensures |f| >= 14 && Parser.Parse(f).ctx.pktLen == |f| % 65536
    ensures Parser.Parse(f).ctx.tuple.family == if Be16At(f, 12) == 0x86dd then 10 else 2
  {
  }

  /** An admitted frame that fits the 16-bit length arrives with the protocol its own Ethernet
      type stands for. */
  lemma ParsedRoundTrip(c: Ctx, f: seq<nat>, p: Parser.Parsed)
    requires ValidCtx(c) && p == Parser.Parse(f) && p.rc.Ok? && |f| < 65536
    requires c.pktLen == p.ctx.pktLen && c.family == p.ctx.tuple.family
    ensures |f| >= 14 && c.pktLen == |f| && Arrives(c, f, if Be16At(f, 12) == 0x86dd then 41 else 4)
  {
    ParsedFamily(f);
    AllArrive(c, f);
  }
}
