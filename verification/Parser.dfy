/** The packet parser (parser.c): from a frame to the flow tuple that keys every later lookup.
    Frames are byte sequences; reading past their end is the bounds check that fails. */
module Parser {
  import opened Types

  const MAX_EXT_HDRS: nat := 8
  const ICMP_EMB_EXT_HDRS: nat := 2
  const UDP_HLEN: nat := 8

  const HOPOPTS: nat := 0
  const ICMP: nat := 1
  const TCP: nat := 6
  const UDP: nat := 17
  const ROUTING: nat := 43
  const FRAGMENT: nat := 44
  const ESP: nat := 50
  const AH: nat := 51
  const ICMPV6: nat := 58
  const DSTOPTS: nat := 60
  const SCTP: nat := 132

  datatype Ret = Ok | PassIcmpEcho | PassNotForwarded
               | DropParseError | DropUnsupportedProto | DropExtHdrLimit | DropIcmpUnparseable

  predicate IsDrop(rc: Ret) { !rc.Ok? && !rc.PassIcmpEcho? && !rc.PassNotForwarded? }

  /** `packet_tuple`; an address is four 32-bit words, IPv4 in the first. */
  datatype Tuple = Tuple(src: seq<nat>, dst: seq<nat>, sport: nat, dport: nat, proto: nat, family: nat)

  /** The bits of `marlin_ctx.flags` the parser sets. */
  datatype Flag = Icmp | Frag | FragFirst | Quic

  /** The fields of `marlin_ctx` the parser writes. */
  datatype Ctx = Ctx(tuple: Tuple, pktLen: nat, l3Off: nat, l4Off: nat, flags: set<Flag>, udpPayloadLen: nat)

  const ZeroTuple: Tuple := Tuple([0, 0, 0, 0], [0, 0, 0, 0], 0, 0, 0, 0)
  const ZeroCtx: Ctx := Ctx(ZeroTuple, 0, 0, 0, {}, 0)

  predicate IsExt6(nexthdr: nat) {
    nexthdr == HOPOPTS || nexthdr == ROUTING || nexthdr == DSTOPTS || nexthdr == FRAGMENT
  }

  predicate Unsupported(proto: nat) { proto == ESP || proto == AH }

  predicate HasPorts(proto: nat) { proto == TCP || proto == UDP || proto == SCTP }

  predicate IsIcmp(family: nat, proto: nat) {
    (family == AF_INET && proto == ICMP) || (family == AF_INET6 && proto == ICMPV6)
  }

  predicate IcmpError(family: nat, kind: nat) {
    if family == AF_INET then kind == 3 || kind == 11 || kind == 12 else 1 <= kind <= 4
  }

  predicate IcmpEcho(family: nat, kind: nat) {
    if family == AF_INET then kind == 8 || kind == 0 else kind == 128 || kind == 129
  }

  // ---- the fragment fields ---------------------------------------------------------------------

  /** A non-zero offset in an IPv4 `frag_off`, and a zero offset with more to follow. */
  predicate Tail4(v: nat) { v % 0x2000 != 0 }

  predicate Head4(v: nat) { !Tail4(v) && v / 0x2000 % 2 == 1 }

  /** The same for the IPv6 Fragment header, whose offset is in the upper 13 bits. */
  predicate Tail6(v: nat) { v / 8 != 0 }

  predicate Head6(v: nat) { !Tail6(v) && v % 2 == 1 }

  // ---- the IPv6 header chain ----------------------------------------------------------------------

  datatype Walk = Stopped(rc: Ret) | Upper(proto: nat, l4Off: nat, frag: bool, first: bool, fragExt: bool)

  /** What a header chain leads to, and how many extension headers it takes to find out. */
  datatype Chain = Chain(headers: nat, walk: Walk)

  function More(c: Chain): Chain { c.(headers := c.headers + 1) }

  /** The whole chain from `off` on, however long. `first` and `fragExt` carry what earlier
      Fragment headers said. */
  function ChainOf(f: seq<nat>, off: nat, nexthdr: nat, first: bool, fragExt: bool): (c: Chain)
    ensures c.walk.Stopped? ==> IsDrop(c.walk.rc)
    ensures c.walk.Upper? && fragExt ==> c.walk.fragExt
    decreases if off <= |f| then |f| - off else 0
  {
    if Unsupported(nexthdr) then Chain(0, Stopped(DropUnsupportedProto))
    else if !IsExt6(nexthdr) then Chain(0, Upper(nexthdr, off, false, first, fragExt))
    else if off + 2 > |f| then Chain(1, Stopped(DropParseError))
    else if nexthdr == FRAGMENT then
      if off + 8 > |f| then Chain(1, Stopped(DropParseError)) else
      var v := Be16At(f, off + 2);
      var first' := first || Head6(v);
      var fragExt' := fragExt || ((Tail6(v) || first') && IsExt6(f[off]));
      if Tail6(v) then Chain(1, Upper(f[off], off + 8, true, first', fragExt'))
      else More(ChainOf(f, off + 8, f[off], first', fragExt'))
    else More(ChainOf(f, off + (f[off + 1] + 1) * 8, f[off], first, fragExt))
  }

  /** A chain read with room for only so many extension headers. */
  function Bounded(c: Chain, maxExt: nat): Walk {
    if c.headers <= maxExt then c.walk else Stopped(DropExtHdrLimit)
  }

  /** The unrolled walk: it finds exactly what the unbounded chain holds, or reports the limit
      exactly when the chain needs more headers than allowed. */
  method WalkExt6(f: seq<nat>, l4: nat, nh: nat, maxExt: nat) returns (out: Walk)
    requires maxExt <= MAX_EXT_HDRS
    ensures out == Bounded(ChainOf(f, l4, nh, false, false), maxExt)
  {
    var off: nat, nexthdr: nat, first, fragExt := l4, nh, false, false;
    ghost var whole := ChainOf(f, l4, nh, false, false);
    for i := 0 to MAX_EXT_HDRS + 1
      invariant i <= maxExt ==> whole.headers == i + ChainOf(f, off, nexthdr, first, fragExt).headers
      invariant i <= maxExt ==> whole.walk == ChainOf(f, off, nexthdr, first, fragExt).walk
      invariant i <= maxExt || (i == MAX_EXT_HDRS + 1 && whole.headers > maxExt)
    {
      if Unsupported(nexthdr) {
        return Stopped(DropUnsupportedProto);
      }
      if !IsExt6(nexthdr) {
        return Upper(nexthdr, off, false, first, fragExt);
      }
      if i >= maxExt {
        return Stopped(DropExtHdrLimit);
      }
      if off + 2 > |f| {
        return Stopped(DropParseError);
      }
      var hdrLen := (f[off + 1] + 1) * 8;
      if nexthdr == FRAGMENT {
        if off + 8 > |f| {
          return Stopped(DropParseError);
        }
        var v := Be16At(f, off + 2);
        first := first || Head6(v);
        fragExt := fragExt || ((Tail6(v) || first) && IsExt6(f[off]));
        if Tail6(v) {
          return Upper(f[off], off + 8, true, first, fragExt);
        }
        hdrLen := 8;
      }
      nexthdr, off := f[off], off + hdrLen;
    }
    return Stopped(DropExtHdrLimit);
  }

  // ---- the network layer ------------------------------------------------------------------------------

  datatype L3 = L3(src: seq<nat>, dst: seq<nat>, l4Off: nat, proto: nat, frag: bool, first: bool, fragExt: bool)

  datatype L3Result = L3Drop(rc: Ret) | L3Found(l3: L3)

  function Word(f: seq<nat>, off: nat): nat
    requires off + 4 <= |f|
  {
    Be16At(f, off) * 65536 + Be16At(f, off + 2)
  }

  function Words4(f: seq<nat>, off: nat): seq<nat>
    requires off + 16 <= |f|
  {
    [Word(f, off), Word(f, off + 4), Word(f, off + 8), Word(f, off + 12)]
  }

  function Ipv4Of(f: seq<nat>, off: nat): L3Result {
    if off + 20 > |f| || f[off] % 16 < 5 || off + f[off] % 16 * 4 > |f| then L3Drop(DropParseError)
    else
      var v := Be16At(f, off + 6);
      L3Found(L3([Word(f, off + 12), 0, 0, 0], [Word(f, off + 16), 0, 0, 0], off + f[off] % 16 * 4, f[off + 9],
                 Tail4(v), Head4(v), false))
  }

  function Ipv6Chain(f: seq<nat>, off: nat): Chain
    requires off + 40 <= |f|
  {
    ChainOf(f, off + 40, f[off + 6], false, false)
  }

  function Ipv6Of(f: seq<nat>, off: nat, walk: Walk): L3Result
    requires off + 40 <= |f|
  {
    match walk
    case Stopped(rc) => L3Drop(rc)
    case Upper(proto, l4Off, frag, first, fragExt) =>
      L3Found(L3(Words4(f, off + 8), Words4(f, off + 24), l4Off, proto, frag, first, fragExt))
  }

  /** The network header at `off`, with at most `maxExt` IPv6 extension headers behind it. */
  function L3Of(f: seq<nat>, off: nat, family: nat, maxExt: nat): (r: L3Result)
    ensures r.L3Drop? ==> IsDrop(r.rc)
  {
    if family == AF_INET then Ipv4Of(f, off)
    else if off + 40 > |f| then L3Drop(DropParseError)
    else Ipv6Of(f, off, Bounded(Ipv6Chain(f, off), maxExt))
  }

  method ParseL3(f: seq<nat>, off: nat, family: nat, maxExt: nat) returns (r: L3Result)
    requires maxExt <= MAX_EXT_HDRS
    ensures r == L3Of(f, off, family, maxExt)
  {
    if family == AF_INET {
      return Ipv4Of(f, off);
    }
    if off + 40 > |f| {
      return L3Drop(DropParseError);
    }
    var walk := WalkExt6(f, off + 40, f[off + 6], maxExt);
    return Ipv6Of(f, off, walk);
  }

  // ---- the transport layer -------------------------------------------------------------------------------

  datatype Ports = NoPorts(rc: Ret) | Ports(sport: nat, dport: nat)

  function PortsOf(f: seq<nat>, l4Off: nat, proto: nat): Ports {
    if Unsupported(proto) then NoPorts(DropUnsupportedProto)
    else if !HasPorts(proto) then NoPorts(PassNotForwarded)
    else if l4Off + 4 > |f| then NoPorts(DropParseError)
    else Ports(Be16At(f, l4Off), Be16At(f, l4Off + 2))
  }

  /** The declared UDP payload, clamped to a byte; nothing when the header says less than itself. */
  function PayloadLen(f: seq<nat>, l4Off: nat): nat
    requires l4Off + UDP_HLEN <= |f|
  {
    var len := Be16At(f, l4Off + 4);
    if len < UDP_HLEN then 0 else if len - UDP_HLEN > 0xff then 0xff else len - UDP_HLEN
  }

  /** A short-header form byte lies within both the frame and the declared payload. */
  predicate ShortHeader(f: seq<nat>, l4Off: nat) {
    l4Off + UDP_HLEN < |f| && PayloadLen(f, l4Off) > 0 && f[l4Off + UDP_HLEN] < 0x80
  }

  function WithQuic(f: seq<nat>, l4Off: nat, c: Ctx): Ctx {
    if l4Off + UDP_HLEN > |f| then c
    else c.(udpPayloadLen := PayloadLen(f, l4Off), flags := if ShortHeader(f, l4Off) then c.flags + {Quic} else c.flags)
  }

  // ---- ICMP errors -------------------------------------------------------------------------------------------

  datatype Parsed = Parsed(rc: Ret, ctx: Ctx)

  /** The tuple of an ICMP error: the embedded packet's, seen from the other end. */
  function IcmpOf(f: seq<nat>, l4Off: nat, family: nat, c: Ctx): Parsed {
    if l4Off + 2 > |f| then Parsed(DropParseError, c)
    else if !IcmpError(family, f[l4Off]) then Parsed(if IcmpEcho(family, f[l4Off]) then PassIcmpEcho else PassNotForwarded, c)
    else if l4Off + 8 > |f| then Parsed(DropIcmpUnparseable, c)
    else
      match L3Of(f, l4Off + 8, family, ICMP_EMB_EXT_HDRS)
      case L3Drop(_) => Parsed(DropIcmpUnparseable, c)
      case L3Found(emb) =>
        if emb.frag then Parsed(DropIcmpUnparseable, c) else
        match PortsOf(f, emb.l4Off, emb.proto)
        case NoPorts(_) => Parsed(DropIcmpUnparseable, c)
        case Ports(sport, dport) =>
          Parsed(Ok, c.(tuple := c.tuple.(src := emb.dst, dst := emb.src, sport := dport, dport := sport, proto := emb.proto),
                        flags := c.flags + {Icmp}))
  }

  // ---- the frame ----------------------------------------------------------------------------------------------

  /** The family an Ethernet type announces; 0 when it is neither. */
  function FamilyOf(f: seq<nat>): nat
    requires |f| >= ETH_HLEN
  {
    if Be16At(f, 12) == 0x0800 then AF_INET else if Be16At(f, 12) == 0x86dd then AF_INET6 else 0
  }

  function FragFlags(l3: L3): set<Flag> {
    (if l3.frag then {Frag} else {}) + (if l3.first then {FragFirst} else {})
  }

  /** The context once the network header is known. */
  function WithL3(c: Ctx, family: nat, l3: L3): Ctx {
    c.(tuple := c.tuple.(family := family, proto := l3.proto, src := l3.src, dst := l3.dst),
       l3Off := ETH_HLEN, l4Off := l3.l4Off % 65536, flags := c.flags + FragFlags(l3))
  }

  function WithTransport(f: seq<nat>, family: nat, l3: L3, c: Ctx): Parsed {
    if Unsupported(l3.proto) || l3.fragExt then Parsed(DropUnsupportedProto, c)
    else if Frag in c.flags then Parsed(if IsIcmp(family, l3.proto) then PassNotForwarded else Ok, c)
    else if IsIcmp(family, l3.proto) then IcmpOf(f, l3.l4Off, family, c)
    else
      match PortsOf(f, l3.l4Off, l3.proto)
      case NoPorts(rc) => Parsed(rc, c)
      case Ports(sport, dport) =>
        var c' := c.(tuple := c.tuple.(sport := sport, dport := dport));
        Parsed(Ok, if l3.proto == UDP then WithQuic(f, l3.l4Off, c') else c')
  }

  function ParsedFrom(f: seq<nat>, c: Ctx): Parsed {
    var c := c.(pktLen := |f| % 65536);
    if |f| < ETH_HLEN then Parsed(DropParseError, c)
    else if FamilyOf(f) == 0 then Parsed(PassNotForwarded, c)
    else
      match L3Of(f, ETH_HLEN, FamilyOf(f), MAX_EXT_HDRS)
      case L3Drop(rc) => Parsed(rc, c)
      case L3Found(l3) => WithTransport(f, FamilyOf(f), l3, WithL3(c, FamilyOf(f), l3))
  }

  /** The parse of a frame into a fresh context, which is how every packet arrives. */
  function Parse(f: seq<nat>): Parsed { ParsedFrom(f, ZeroCtx) }

  /** The per-packet context, written field by field. */
  class MarlinCtx {
    var tuple: Tuple
    var pktLen: nat
    var l3Off: nat
    var l4Off: nat
    var flags: set<Flag>
    var udpPayloadLen: nat

    ghost function View(): Ctx
      reads this
    {
      Ctx(tuple, pktLen, l3Off, l4Off, flags, udpPayloadLen)
    }

    constructor ()
      ensures View() == ZeroCtx
    {
      tuple, pktLen, l3Off, l4Off, flags, udpPayloadLen := ZeroTuple, 0, 0, 0, {}, 0;
    }

    method ParseQuic(f: seq<nat>, l4Off: nat) returns (bits: set<Flag>)
      modifies this`udpPayloadLen
      ensures View().(flags := flags + bits) == WithQuic(f, l4Off, old(View()))
    {
      if l4Off + UDP_HLEN > |f| {
        return {};
      }
      var udpLen := Be16At(f, l4Off + 4);
      if udpLen < UDP_HLEN {
        udpPayloadLen := 0;
        return {};
      }
      udpPayloadLen := if udpLen - UDP_HLEN > 0xff then 0xff else udpLen - UDP_HLEN;
      if udpPayloadLen == 0 || l4Off + UDP_HLEN + 1 > |f| {
        return {};
      }
      return if f[l4Off + UDP_HLEN] < 0x80 then {Quic} else {};
    }

    method ParseIcmp(f: seq<nat>, l4Off: nat, family: nat) returns (rc: Ret)
      modifies this
      ensures Parsed(rc, View()) == IcmpOf(f, l4Off, family, old(View()))
    {
      if l4Off + 2 > |f| {
        return DropParseError;
      }
      if !IcmpError(family, f[l4Off]) {
        return if IcmpEcho(family, f[l4Off]) then PassIcmpEcho else PassNotForwarded;
      }
      if l4Off + 8 > |f| {
        return DropIcmpUnparseable;
      }
      var r := ParseL3(f, l4Off + 8, family, ICMP_EMB_EXT_HDRS);
      if r.L3Drop? || r.l3.frag {
        return DropIcmpUnparseable;
      }
      var ports := PortsOf(f, r.l3.l4Off, r.l3.proto);
      if ports.NoPorts? {
        return DropIcmpUnparseable;
      }
      tuple := tuple.(dst := r.l3.src, src := r.l3.dst);
      tuple := tuple.(dport := ports.sport, sport := ports.dport, proto := r.l3.proto);
      flags := flags + {Icmp};
      return Ok;
    }

    method ParseFrame(f: seq<nat>) returns (rc: Ret)
      modifies this
      ensures Parsed(rc, View()) == ParsedFrom(f, old(View()))
    {
      pktLen := |f| % 65536;
      if |f| < ETH_HLEN {
        return DropParseError;
      }
      var family := FamilyOf(f);
      if family == 0 {
        return PassNotForwarded;
      }
      var r := ParseL3(f, ETH_HLEN, family, MAX_EXT_HDRS);
      if r.L3Drop? {
        return r.rc;
      }
      var l3 := r.l3;
      tuple := tuple.(family := family, proto := l3.proto, src := l3.src, dst := l3.dst);
      l3Off, l4Off := ETH_HLEN, l3.l4Off % 65536;
      flags := flags + FragFlags(l3);
      if Unsupported(l3.proto) || l3.fragExt {
        return DropUnsupportedProto;
      }
      if Frag in flags {
        return if IsIcmp(family, l3.proto) then PassNotForwarded else Ok;
      }
      if IsIcmp(family, l3.proto) {
        rc := ParseIcmp(f, l3.l4Off, family);
        return;
      }
      var ports := PortsOf(f, l3.l4Off, l3.proto);
      if ports.NoPorts? {
        return ports.rc;
      }
      tuple := tuple.(sport := ports.sport, dport := ports.dport);
      if l3.proto == UDP {
        var bits := ParseQuic(f, l3.l4Off);
        flags := flags + bits;
      }
      return Ok;
    }
  }
}
