/** Packets as they are laid out on the wire (RFC 791, RFC 8200), and the parser as the inverse
    of that layout. Protocols, types and limits are the numbers the standards give them. */
module Wire {
  import opened Types
  import opened Parser
  import opened Affinity

  // ---- layout ---------------------------------------------------------------------------------

  /** The fields a flow is made of, addresses in wire form. */
  datatype Ends = Ends(src: seq<nat>, dst: seq<nat>, sport: nat, dport: nat, proto: nat)

  /** An IPv6 extension header other than Fragment: its kind and what follows its two fixed bytes. */
  datatype Ext = Ext(kind: nat, units: nat, body: seq<nat>)

  predicate ValidExt(x: Ext) {
    x.kind in {0, 43, 60} && x.units < 256 && |x.body| == x.units * 8 + 6
  }

  predicate ValidExts(exts: seq<Ext>) { forall i :: 0 <= i < |exts| ==> ValidExt(exts[i]) }

  function Two(x: nat): (bytes: seq<nat>)
    ensures |bytes| == 2
  {
    [x / 256, x % 256]
  }

  function Segment(t: Ends, rest: seq<nat>): seq<nat> { Two(t.sport) + Two(t.dport) + rest }

  /** What an IPv6 header or extension header names as next. */
  function NextOf(exts: seq<Ext>, proto: nat): nat { if exts == [] then proto else exts[0].kind }

  function ExtBytes(x: Ext, next: nat): seq<nat> { [next, x.units] + x.body }

  function ExtsBytes(exts: seq<Ext>, proto: nat): seq<nat> {
    if exts == [] then [] else ExtBytes(exts[0], NextOf(exts[1..], proto)) + ExtsBytes(exts[1..], proto)
  }

  /** `lead` is version, class, label and payload length; `hop` the hop limit. */
  function Header6(lead: seq<nat>, next: nat, hop: nat, src: seq<nat>, dst: seq<nat>): seq<nat> {
    lead + [next, hop] + src + dst
  }

  /** A packet of any upper protocol behind any extension headers. */
  function Datagram6(lead: seq<nat>, hop: nat, src: seq<nat>, dst: seq<nat>, exts: seq<Ext>, proto: nat, body: seq<nat>): seq<nat> {
    Header6(lead, NextOf(exts, proto), hop, src, dst) + (ExtsBytes(exts, proto) + body)
  }

  function Packet6(lead: seq<nat>, hop: nat, t: Ends, exts: seq<Ext>, rest: seq<nat>): seq<nat> {
    Datagram6(lead, hop, t.src, t.dst, exts, t.proto, Segment(t, rest))
  }

  /** `tag` is the reserved byte and `id` the identification. */
  function FragmentHeader(next: nat, tag: nat, field: nat, id: seq<nat>): seq<nat> { [next, tag] + Two(field) + id }

  /** The first byte carries the header length in words; `lead` is type of service, lengths and
      id, `frag` the fragment field, `ttl` and `check` theirs. */
  function Header4(lead: seq<nat>, frag: nat, ttl: nat, check: seq<nat>, src: seq<nat>, dst: seq<nat>, options: seq<nat>, proto: nat): seq<nat> {
    [0x45 + |options| / 4] + lead + Two(frag) + [ttl, proto] + check + src + dst + options
  }

  function Datagram4(lead: seq<nat>, frag: nat, ttl: nat, check: seq<nat>, src: seq<nat>, dst: seq<nat>, options: seq<nat>,
                     proto: nat, body: seq<nat>): seq<nat> {
    Header4(lead, frag, ttl, check, src, dst, options, proto) + body
  }

  function Packet4(lead: seq<nat>, frag: nat, ttl: nat, check: seq<nat>, t: Ends, options: seq<nat>, rest: seq<nat>): seq<nat> {
    Datagram4(lead, frag, ttl, check, t.src, t.dst, options, t.proto, Segment(t, rest))
  }

  function Frame(macs: seq<nat>, family: nat, p: seq<nat>): seq<nat> {
    macs + (if family == AF_INET then [0x08, 0x00] else [0x86, 0xdd]) + p
  }

  predicate ValidEnds(t: Ends, addrLen: nat) {
    |t.src| == addrLen && |t.dst| == addrLen && t.sport < 65536 && t.dport < 65536 && t.proto in {6, 17, 132}
  }

  predicate Layout6(lead: seq<nat>, src: seq<nat>, dst: seq<nat>, exts: seq<Ext>) {
    |lead| == 6 && |src| == |dst| == 16 && ValidExts(exts)
  }

  predicate Valid6(lead: seq<nat>, t: Ends, exts: seq<Ext>) {
    Layout6(lead, t.src, t.dst, exts) && ValidEnds(t, 16)
  }

  predicate Layout4(lead: seq<nat>, frag: nat, check: seq<nat>, src: seq<nat>, dst: seq<nat>, options: seq<nat>) {
    && |lead| == 5 && |check| == 2 && |src| == |dst| == 4 && frag < 65536
    && |options| <= 40 && |options| % 4 == 0
  }

  /** A packet whose fragment offset is zero; the bits above it may be set. */
  predicate Valid4(lead: seq<nat>, frag: nat, check: seq<nat>, t: Ends, options: seq<nat>) {
    Layout4(lead, frag, check, t.src, t.dst, options) && ValidEnds(t, 4) && frag % 0x2000 == 0
  }

  function Swapped(t: Ends): Ends { Ends(t.dst, t.src, t.dport, t.sport, t.proto) }

  function Number(a: seq<nat>, i: nat): nat
    requires i + 4 <= |a|
  {
    a[i] * 0x100_0000 + a[i + 1] * 0x1_0000 + a[i + 2] * 0x100 + a[i + 3]
  }

  function Address6(a: seq<nat>): seq<nat>
    requires |a| == 16
  {
    [Number(a, 0), Number(a, 4), Number(a, 8), Number(a, 12)]
  }

  function Address4(a: seq<nat>): seq<nat>
    requires |a| == 4
  {
    [Number(a, 0), 0, 0, 0]
  }

  function Tuple6(t: Ends): Tuple
    requires |t.src| == |t.dst| == 16
  {
    Tuple(Address6(t.src), Address6(t.dst), t.sport, t.dport, t.proto, AF_INET6)
  }

  function Tuple4(t: Ends): Tuple
    requires |t.src| == |t.dst| == 4
  {
    Tuple(Address4(t.src), Address4(t.dst), t.sport, t.dport, t.proto, AF_INET)
  }

  // ---- the IPv6 header chain ---------------------------------------------------------------------------

  lemma OneExt(pre: seq<nat>, x: Ext, next: nat, rest: seq<nat>)
    requires ValidExt(x)
    ensures var first := ExtBytes(x, next);
            var f := (pre + first) + rest;
            ChainOf(f, |pre|, x.kind, false, false) == More(ChainOf(f, |pre + first|, next, false, false))
  {
    var first := ExtBytes(x, next);
    var f := (pre + first) + rest;
    assert f[|pre|] == first[0] && f[|pre| + 1] == first[1];
    assert |pre + first| == |pre| + (x.units + 1) * 8;
  }

  lemma Regroup(a: seq<nat>, b: seq<nat>, c: seq<nat>, d: seq<nat>)
    ensures a + ((b + c) + d) == (a + b) + (c + d)
  {
  }

  /** Extension headers of any number lead to what they name last. */
  lemma {:induction false} ChainThroughExts(pre: seq<nat>, exts: seq<Ext>, next: nat, rest: seq<nat>)
    requires ValidExts(exts)
    ensures var bytes := ExtsBytes(exts, next);
            var f := pre + (bytes + rest);
            ChainOf(f, |pre|, NextOf(exts, next), false, false) == Prepend(|exts|, ChainOf(f, |pre| + |bytes|, next, false, false))
    decreases |exts|
  {
    if exts != [] {
      var x, more := exts[0], exts[1..];
      var first, last := ExtBytes(x, NextOf(more, next)), ExtsBytes(more, next);
      assert ValidExt(x) && ExtsBytes(exts, next) == first + last;
      Regroup(pre, first, last, rest);
      OneExt(pre, x, NextOf(more, next), last + rest);
      ChainThroughExts(pre + first, more, next, rest);
      assert |pre + first| + |last| == |pre| + |first + last|;
    }
  }

  /** A chain of any length leads to the upper-layer header behind it, over as many headers as
      it has; the security headers end it. */
  lemma ChainOfExts(pre: seq<nat>, exts: seq<Ext>, proto: nat, rest: seq<nat>)
    requires ValidExts(exts) && proto !in {0, 43, 44, 60}
    ensures var bytes := ExtsBytes(exts, proto);
            ChainOf(pre + (bytes + rest), |pre|, NextOf(exts, proto), false, false) ==
            Chain(|exts|, if proto in {50, 51} then Stopped(DropUnsupportedProto)
                          else Upper(proto, |pre| + |bytes|, false, false, false))
  {
    ChainThroughExts(pre, exts, proto, rest);
  }

  lemma FragmentFields(pre: seq<nat>, bytes: seq<nat>, next: nat, tag: nat, field: nat, id: seq<nat>, rest: seq<nat>)
    requires |id| == 4
    ensures var f, at := pre + (bytes + (FragmentHeader(next, tag, field, id) + rest)), |pre| + |bytes|;
            at + 8 <= |f| && f[at] == next && Be16At(f, at + 2) == field
  {
    var h := FragmentHeader(next, tag, field, id);
    var f, at := pre + (bytes + (h + rest)), |pre| + |bytes|;
    assert h[0] == next && h[2] == field / 256 && h[3] == field % 256;
    assert f[at..][..8] == h;
    assert f[at] == f[at..][..8][0] && f[at + 2] == f[at..][..8][2] && f[at + 3] == f[at..][..8][3];
  }

  lemma AtFragment(f: seq<nat>, at: nat, proto: nat, offset: nat, reserved: nat, more: nat)
    requires at + 8 <= |f| && f[at] == proto && Be16At(f, at + 2) == Field6(offset, reserved, more)
    requires proto !in {0, 43, 44, 50, 51, 60} && offset < 0x2000 && reserved < 4 && more < 2
    ensures ChainOf(f, at, 44, false, false) == FragmentStop(0, proto, at, offset, more)
  {
    FieldsRead6(offset, reserved, more);
  }

  /** A later fragment ends the chain; the first one is marked when more follow. */
  function FragmentStop(headers: nat, proto: nat, at: nat, offset: nat, more: nat): Chain {
    Chain(headers + 1, Upper(proto, at + 8, offset != 0, offset == 0 && more == 1, false))
  }

  lemma ThenFragment(f: seq<nat>, c: Chain, k: nat, at: nat, proto: nat, offset: nat, reserved: nat, more: nat)
    requires c == Prepend(k, ChainOf(f, at, 44, false, false))
    requires at + 8 <= |f| && f[at] == proto && Be16At(f, at + 2) == Field6(offset, reserved, more)
    requires proto !in {0, 43, 44, 50, 51, 60} && offset < 0x2000 && reserved < 4 && more < 2
    ensures c == FragmentStop(k, proto, at, offset, more)
  {
    AtFragment(f, at, proto, offset, reserved, more);
  }

  /** A Fragment header behind the others counts as one more. */
  lemma ChainOfFragment(pre: seq<nat>, exts: seq<Ext>, proto: nat, tag: nat, id: seq<nat>, offset: nat, reserved: nat, more: nat, rest: seq<nat>)
    returns (c: Chain)
    requires ValidExts(exts) && proto !in {0, 43, 44, 50, 51, 60} && |id| == 4 && offset < 0x2000 && reserved < 4 && more < 2
    ensures c == FragmentStop(|exts|, proto, |pre| + |ExtsBytes(exts, 44)|, offset, more)
    ensures ChainOf(pre + (ExtsBytes(exts, 44) + (FragmentHeader(proto, tag, Field6(offset, reserved, more), id) + rest)), |pre|, NextOf(exts, 44), false, false) == c
  {
    var bytes, field := ExtsBytes(exts, 44), Field6(offset, reserved, more);
    var behind := FragmentHeader(proto, tag, field, id) + rest;
    var f := pre + (bytes + behind);
    ChainThroughExts(pre, exts, 44, behind);
    c := ChainOf(f, |pre|, NextOf(exts, 44), false, false);
    FragmentFields(pre, bytes, proto, tag, field, id, rest);
    ThenFragment(f, c, |exts|, |pre| + |bytes|, proto, offset, reserved, more);
  }

  lemma {:induction false} ExtsLength(exts: seq<Ext>, next: nat)
    requires ValidExts(exts)
    ensures |ExtsBytes(exts, next)| <= 2048 * |exts|
    decreases |exts|
  {
    if exts != [] {
      assert ValidExt(exts[0]);
      ExtsLength(exts[1..], next);
    }
  }

  // ---- the network header ------------------------------------------------------------------------------

  lemma Address6Words(p: seq<nat>, off: nat, a: seq<nat>)
    requires |a| == 16 && off + 16 <= |p| && p[off..off + 16] == a
    ensures Words4(p, off) == Address6(a)
  {
    WordsMove(p[..off + 16], off, 0);
    assert p[..off + 16][off..] == a;
  }

  lemma Header6Fields(lead: seq<nat>, next: nat, hop: nat, src: seq<nat>, dst: seq<nat>, rest: seq<nat>)
    requires |lead| == 6 && |src| == |dst| == 16
    ensures var p := Header6(lead, next, hop, src, dst) + rest;
            |p| >= 40 && p[6] == next && Words4(p, 8) == Address6(src) && Words4(p, 24) == Address6(dst)
  {
    var p := Header6(lead, next, hop, src, dst) + rest;
    assert p[8..24] == src && p[24..40] == dst;
    Address6Words(p, 8, src);
    Address6Words(p, 24, dst);
  }

  /** The network header of an IPv6 packet is what it was built from, behind as many headers as
      it has. */
  lemma L3OfDatagram6(lead: seq<nat>, hop: nat, src: seq<nat>, dst: seq<nat>, exts: seq<Ext>, proto: nat, body: seq<nat>)
    requires Layout6(lead, src, dst, exts) && proto !in {0, 43, 44, 60}
    ensures var p, at := Datagram6(lead, hop, src, dst, exts, proto, body), 40 + |ExtsBytes(exts, proto)|;
            && WholeL3(p, AF_INET6) == (if proto in {50, 51} then L3Drop(DropUnsupportedProto)
                                        else L3Found(L3(Address6(src), Address6(dst), at, proto, false, false, false)))
            && ExtHeaders(p, AF_INET6) == |exts| && at <= |p| && p[at..] == body
  {
    var bytes := ExtsBytes(exts, proto);
    Header6Fields(lead, NextOf(exts, proto), hop, src, dst, bytes + body);
    ChainOfExts(Header6(lead, NextOf(exts, proto), hop, src, dst), exts, proto, body);
  }

  lemma L3OfDatagram4(lead: seq<nat>, frag: nat, ttl: nat, check: seq<nat>, src: seq<nat>, dst: seq<nat>, options: seq<nat>,
                      proto: nat, body: seq<nat>)
    requires Layout4(lead, frag, check, src, dst, options)
    ensures var p, at := Datagram4(lead, frag, ttl, check, src, dst, options, proto, body), 20 + |options|;
            && WholeL3(p, AF_INET) == L3Found(L3(Address4(src), Address4(dst), at, proto, Tail4(frag), Head4(frag), false))
            && at <= |p| && p[at..] == body
  {
    var p := Datagram4(lead, frag, ttl, check, src, dst, options, proto, body);
    assert p[0] == 0x45 + |options| / 4 && p[9] == proto;
    assert p[6] == frag / 256 && p[7] == frag % 256;
    assert Be16At(p, 6) == frag;
    assert p[12..16] == src && p[16..20] == dst;
    assert Word(p, 12) == Number(src, 0) && Word(p, 16) == Number(dst, 0);
  }

  lemma FrameFields(macs: seq<nat>, family: nat, p: seq<nat>)
    requires |macs| == 12 && (family == AF_INET || family == AF_INET6)
    ensures var f := Frame(macs, family, p); |f| >= ETH_HLEN && FamilyOf(f) == family && f[ETH_HLEN..] == p
  {
    var f := Frame(macs, family, p);
    assert f[12..14] == if family == AF_INET then [0x08, 0x00] else [0x86, 0xdd];
  }

  /** A frame whose network header is `l3`, and what follows that header. */
  predicate Carries(f: seq<nat>, family: nat, l3: L3, body: seq<nat>) {
    && |f| >= ETH_HLEN && FamilyOf(f) == family && (family == AF_INET || family == AF_INET6)
    && L3Of(f, ETH_HLEN, family, MAX_EXT_HDRS) == L3Found(l3) && !l3.fragExt
    && l3.l4Off <= |f| && f[l3.l4Off..] == body
  }

  lemma FrameCarries(macs: seq<nat>, family: nat, p: seq<nat>, l3: L3, body: seq<nat>)
    requires |macs| == 12 && (family == AF_INET || family == AF_INET6) && WholeL3(p, family) == L3Found(l3) && !l3.fragExt
    requires l3.l4Off <= |p| && p[l3.l4Off..] == body
    ensures var f := Frame(macs, family, p);
            if ExtHeaders(p, family) <= 8 then Carries(f, family, l3.(l4Off := 14 + l3.l4Off), body)
            else Parse(f).rc == DropExtHdrLimit
  {
    var f := Frame(macs, family, p);
    FrameFields(macs, family, p);
    L3Moves(f, ETH_HLEN, family, MAX_EXT_HDRS);
    BoundedL3(p, family, MAX_EXT_HDRS);
    assert f[14 + l3.l4Off..] == f[14..][l3.l4Off..];
  }

  // ---- what every upper protocol is answered -------------------------------------------------------------

  /** The answers to a packet: security headers are refused; of a later fragment only ICMP is
      passed on; of ICMP the echoes and what is no error are passed on; and a transport protocol
      is admitted with its ports, everything else passed on. */
  predicate Answered(rc: Ret, proto: nat, icmp: nat, errors: set<nat>, echoes: set<nat>, later: bool, body: seq<nat>) {
    if proto in {50, 51} then rc == DropUnsupportedProto
    else if later then rc == if proto == icmp then PassNotForwarded else Ok
    else if proto == icmp then
      if |body| < 2 then rc == DropParseError
      else if body[0] in echoes then rc == PassIcmpEcho
      else if body[0] !in errors then rc == PassNotForwarded
      else rc == DropIcmpUnparseable || (rc == Ok && |body| > 8)
    else if proto in {6, 17, 132} then rc == if |body| < 4 then DropParseError else Ok
    else rc == PassNotForwarded
  }

  lemma CarriedAnswer(f: seq<nat>, family: nat, l3: L3, body: seq<nat>)
    requires Carries(f, family, l3, body)
    ensures family == AF_INET ==> Answered(Parse(f).rc, l3.proto, 1, {3, 11, 12}, {0, 8}, l3.frag, body)
    ensures family == AF_INET6 ==> Answered(Parse(f).rc, l3.proto, 58, {1, 2, 3, 4}, {128, 129}, l3.frag, body)
  {
    assert |body| == |f| - l3.l4Off && (body != [] ==> body[0] == f[l3.l4Off]);
    if |body| <= 8 {
      NothingQuoted(f, l3.l4Off + 8, family);
    }
  }

  lemma NothingQuoted(f: seq<nat>, off: nat, family: nat)
    requires |f| <= off
    ensures L3Of(f, off, family, ICMP_EMB_EXT_HDRS).L3Drop?
  {
  }

  lemma Answers6(macs: seq<nat>, lead: seq<nat>, hop: nat, src: seq<nat>, dst: seq<nat>, exts: seq<Ext>, proto: nat, body: seq<nat>)
    requires |macs| == 12 && Layout6(lead, src, dst, exts) && proto !in {0, 43, 44, 60}
    ensures var rc := Parse(Frame(macs, AF_INET6, Datagram6(lead, hop, src, dst, exts, proto, body))).rc;
            if |exts| > 8 then rc == DropExtHdrLimit
            else Answered(rc, proto, 58, {1, 2, 3, 4}, {128, 129}, false, body)
  {
    var p := Datagram6(lead, hop, src, dst, exts, proto, body);
    var f := Frame(macs, AF_INET6, p);
    L3OfDatagram6(lead, hop, src, dst, exts, proto, body);
    if proto in {50, 51} {
      FrameFields(macs, AF_INET6, p);
      L3Moves(f, ETH_HLEN, AF_INET6, MAX_EXT_HDRS);
      BoundedL3(p, AF_INET6, MAX_EXT_HDRS);
    } else {
      var l3 := WholeL3(p, AF_INET6).l3;
      FrameCarries(macs, AF_INET6, p, l3, body);
      if |exts| <= 8 {
        CarriedAnswer(f, AF_INET6, l3.(l4Off := 14 + l3.l4Off), body);
      }
    }
  }

  lemma Answers4(macs: seq<nat>, lead: seq<nat>, reserved: nat, df: nat, mf: nat, offset: nat, ttl: nat, check: seq<nat>,
                 src: seq<nat>, dst: seq<nat>, options: seq<nat>, proto: nat, body: seq<nat>)
    requires |macs| == 12 && reserved < 2 && df < 2 && mf < 2 && offset < 0x2000
    requires Layout4(lead, Field4(reserved, df, mf, offset), check, src, dst, options)
    ensures var rc := Parse(Frame(macs, AF_INET, Datagram4(lead, Field4(reserved, df, mf, offset), ttl, check, src, dst, options, proto, body))).rc;
            Answered(rc, proto, 1, {3, 11, 12}, {0, 8}, offset != 0, body)
  {
    var frag := Field4(reserved, df, mf, offset);
    var p := Datagram4(lead, frag, ttl, check, src, dst, options, proto, body);
    L3OfDatagram4(lead, frag, ttl, check, src, dst, options, proto, body);
    FieldsRead4(reserved, df, mf, offset);
    var l3 := WholeL3(p, AF_INET).l3;
    FrameCarries(macs, AF_INET, p, l3, body);
    CarriedAnswer(Frame(macs, AF_INET, p), AF_INET, l3.(l4Off := 14 + l3.l4Off), body);
  }

  // ---- the parser inverts the layout ------------------------------------------------------------------------

  lemma PortsOfSegment(f: seq<nat>, off: nat, t: Ends, rest: seq<nat>)
    requires off <= |f| && f[off..] == Segment(t, rest) && t.sport < 65536 && t.dport < 65536 && t.proto in {6, 17, 132}
    ensures PortsOf(f, off, t.proto) == Ports(t.sport, t.dport)
  {
    var s := Segment(t, rest);
    assert s[0] == t.sport / 256 && s[1] == t.sport % 256 && s[2] == t.dport / 256 && s[3] == t.dport % 256;
    assert f[off] == s[0] && f[off + 1] == s[1] && f[off + 2] == s[2] && f[off + 3] == s[3];
  }

  /** The parsed context says where the packet is, what it belongs to and which fragment it is. */
  predicate ReadAs(c: Ctx, tuple: Tuple, l4Off: nat, later: bool, first: bool) {
    && c.tuple == (if later then tuple.(sport := 0, dport := 0) else tuple) && c.l3Off == 14 && c.l4Off == l4Off
    && (Frag in c.flags <==> later) && (FragFirst in c.flags <==> first) && Icmp !in c.flags
  }

  /** What a UDP datagram's payload is taken for: its declared length, clamped to a byte, and
      whether it opens like a QUIC short header. */
  predicate ReadsUdp(c: Ctx, rest: seq<nat>) {
    if |rest| < 4 then c.udpPayloadLen == 0 && Quic !in c.flags else
    var len := rest[0] * 256 + rest[1];
    && (len <= 8 ==> c.udpPayloadLen == 0)
    && (8 < len <= 263 ==> c.udpPayloadLen == len - 8)
    && (len > 263 ==> c.udpPayloadLen == 255)
    && (Quic in c.flags <==> len > 8 && |rest| > 4 && rest[4] < 128)
  }

  lemma UdpOfSegment(f: seq<nat>, off: nat, t: Ends, rest: seq<nat>, c: Ctx)
    requires off <= |f| && f[off..] == Segment(t, rest) && Quic !in c.flags && c.udpPayloadLen == 0
    ensures ReadsUdp(WithQuic(f, off, c), rest)
  {
    var s := Segment(t, rest);
    assert |rest| == |f| - off - 4;
    assert forall i :: 0 <= i < |rest| ==> rest[i] == s[4 + i] == f[off + 4 + i];
    if |rest| >= 4 {
      assert f[off + 4] == rest[0] && f[off + 5] == rest[1];
    }
    if |rest| > 4 {
      assert f[off + 8] == rest[4];
    }
  }

  lemma CarriedFlow(f: seq<nat>, family: nat, l3: L3, t: Ends, rest: seq<nat>)
    requires Carries(f, family, l3, Segment(t, rest)) && l3.proto == t.proto && l3.l4Off < 65536
    requires t.sport < 65536 && t.dport < 65536 && t.proto in {6, 17, 132}
    ensures var r := Parse(f);
            && r.rc.Ok? && ReadAs(r.ctx, Tuple(l3.src, l3.dst, t.sport, t.dport, t.proto, family), l3.l4Off, l3.frag, l3.first)
            && (if t.proto == 17 && !l3.frag then ReadsUdp(r.ctx, rest) else Quic !in r.ctx.flags && r.ctx.udpPayloadLen == 0)
  {
    PortsOfSegment(f, l3.l4Off, t, rest);
    var c := WithL3(ZeroCtx.(pktLen := |f| % 65536), family, l3);
    UdpOfSegment(f, l3.l4Off, t, rest, c.(tuple := c.tuple.(sport := t.sport, dport := t.dport)));
  }

  /** Round trip, IPv6: a frame parses to the fields it was built from, through any chain of up
      to eight extension headers; a longer chain is refused. */
  lemma ParseOfFrame6(macs: seq<nat>, lead: seq<nat>, hop: nat, t: Ends, exts: seq<Ext>, rest: seq<nat>)
    requires |macs| == 12 && Valid6(lead, t, exts)
    ensures var r := Parse(Frame(macs, AF_INET6, Packet6(lead, hop, t, exts, rest)));
            if |exts| > 8 then r.rc == DropExtHdrLimit else
            && r.rc.Ok? && ReadAs(r.ctx, Tuple6(t), 54 + |ExtsBytes(exts, t.proto)|, false, false)
            && (if t.proto == 17 then ReadsUdp(r.ctx, rest) else Quic !in r.ctx.flags && r.ctx.udpPayloadLen == 0)
  {
    var p := Packet6(lead, hop, t, exts, rest);
    L3OfDatagram6(lead, hop, t.src, t.dst, exts, t.proto, Segment(t, rest));
    var l3 := WholeL3(p, AF_INET6).l3;
    FrameCarries(macs, AF_INET6, p, l3, Segment(t, rest));
    if |exts| <= 8 {
      ExtsLength(exts, t.proto);
      CarriedFlow(Frame(macs, AF_INET6, p), AF_INET6, l3.(l4Off := 14 + l3.l4Off), t, rest);
    }
  }

  lemma L3OfFragment6(lead: seq<nat>, hop: nat, t: Ends, exts: seq<Ext>, h: seq<nat>, tag: nat, id: seq<nat>,
                      offset: nat, reserved: nat, more: nat, rest: seq<nat>)
    requires Valid6(lead, t, exts) && |id| == 4 && offset < 0x2000 && reserved < 4 && more < 2
    requires h == FragmentHeader(t.proto, tag, Field6(offset, reserved, more), id)
    ensures var p, at := Datagram6(lead, hop, t.src, t.dst, exts, 44, h + Segment(t, rest)), 48 + |ExtsBytes(exts, 44)|;
            && WholeL3(p, AF_INET6) == L3Found(L3(Address6(t.src), Address6(t.dst), at, t.proto, offset != 0, offset == 0 && more == 1, false))
            && ExtHeaders(p, AF_INET6) == |exts| + 1 && at <= |p| && p[at..] == Segment(t, rest)
  {
    var p := Datagram6(lead, hop, t.src, t.dst, exts, 44, h + Segment(t, rest));
    var bytes := ExtsBytes(exts, 44);
    var front := Header6(lead, NextOf(exts, 44), hop, t.src, t.dst);
    Header6Fields(lead, NextOf(exts, 44), hop, t.src, t.dst, bytes + (h + Segment(t, rest)));
    var c := ChainOfFragment(front, exts, t.proto, tag, id, offset, reserved, more, Segment(t, rest));
    assert p == (front + bytes + h) + Segment(t, rest);
  }

  /** The same behind a Fragment header, which takes one of the eight places: a later fragment
      has no ports, the first one is marked exactly when more follow. */
  lemma ParseOfFragment6(macs: seq<nat>, lead: seq<nat>, hop: nat, t: Ends, exts: seq<Ext>, tag: nat, id: seq<nat>,
                         offset: nat, reserved: nat, more: nat, rest: seq<nat>)
    requires |macs| == 12 && Valid6(lead, t, exts) && |id| == 4 && offset < 0x2000 && reserved < 4 && more < 2
    ensures var h := FragmentHeader(t.proto, tag, Field6(offset, reserved, more), id);
            var r := Parse(Frame(macs, AF_INET6, Datagram6(lead, hop, t.src, t.dst, exts, 44, h + Segment(t, rest))));
            if |exts| > 7 then r.rc == DropExtHdrLimit else
            && r.rc.Ok? && ReadAs(r.ctx, Tuple6(t), 62 + |ExtsBytes(exts, 44)|, offset != 0, offset == 0 && more == 1)
            && (if t.proto == 17 && offset == 0 then ReadsUdp(r.ctx, rest) else Quic !in r.ctx.flags && r.ctx.udpPayloadLen == 0)
  {
    var h := FragmentHeader(t.proto, tag, Field6(offset, reserved, more), id);
    var p := Datagram6(lead, hop, t.src, t.dst, exts, 44, h + Segment(t, rest));
    L3OfFragment6(lead, hop, t, exts, h, tag, id, offset, reserved, more, rest);
    var l3 := WholeL3(p, AF_INET6).l3;
    FrameCarries(macs, AF_INET6, p, l3, Segment(t, rest));
    if |exts| <= 7 {
      ExtsLength(exts, 44);
      CarriedFlow(Frame(macs, AF_INET6, p), AF_INET6, l3.(l4Off := 14 + l3.l4Off), t, rest);
    }
  }

  /** Round trip, IPv4: the same, with any options and any fragment field. */
  lemma ParseOfFrame4(macs: seq<nat>, lead: seq<nat>, reserved: nat, df: nat, mf: nat, offset: nat, ttl: nat, check: seq<nat>,
                      t: Ends, options: seq<nat>, rest: seq<nat>)
    requires |macs| == 12 && reserved < 2 && df < 2 && mf < 2 && offset < 0x2000
    requires Layout4(lead, Field4(reserved, df, mf, offset), check, t.src, t.dst, options) && ValidEnds(t, 4)
    ensures var r := Parse(Frame(macs, AF_INET, Packet4(lead, Field4(reserved, df, mf, offset), ttl, check, t, options, rest)));
            && r.rc.Ok? && ReadAs(r.ctx, Tuple4(t), 34 + |options|, offset != 0, offset == 0 && mf == 1)
            && (if t.proto == 17 && offset == 0 then ReadsUdp(r.ctx, rest) else Quic !in r.ctx.flags && r.ctx.udpPayloadLen == 0)
  {
    var frag := Field4(reserved, df, mf, offset);
    var p := Packet4(lead, frag, ttl, check, t, options, rest);
    L3OfDatagram4(lead, frag, ttl, check, t.src, t.dst, options, t.proto, Segment(t, rest));
    FieldsRead4(reserved, df, mf, offset);
    var l3 := WholeL3(p, AF_INET).l3;
    FrameCarries(macs, AF_INET, p, l3, Segment(t, rest));
    CarriedFlow(Frame(macs, AF_INET, p), AF_INET, l3.(l4Off := 14 + l3.l4Off), t, rest);
  }

  // ---- flows of laid-out packets ---------------------------------------------------------------------------

  lemma FlowOfPacket6(lead: seq<nat>, hop: nat, t: Ends, exts: seq<Ext>, rest: seq<nat>)
    requires Valid6(lead, t, exts)
    ensures var p := Packet6(lead, hop, t, exts, rest);
            && FlowOf(p, AF_INET6) == Flow(Tuple6(t)) && Reach(p, AF_INET6) == 44 + |ExtsBytes(exts, t.proto)|
            && ExtHeaders(p, AF_INET6) == |exts|
  {
    var p := Packet6(lead, hop, t, exts, rest);
    L3OfDatagram6(lead, hop, t.src, t.dst, exts, t.proto, Segment(t, rest));
    PortsOfSegment(p, 40 + |ExtsBytes(exts, t.proto)|, t, rest);
  }

  lemma FlowOfPacket4(lead: seq<nat>, frag: nat, ttl: nat, check: seq<nat>, t: Ends, options: seq<nat>, rest: seq<nat>)
    requires Valid4(lead, frag, check, t, options)
    ensures var p := Packet4(lead, frag, ttl, check, t, options, rest);
            FlowOf(p, AF_INET) == Flow(Tuple4(t)) && Reach(p, AF_INET) == 24 + |options|
  {
    var p := Packet4(lead, frag, ttl, check, t, options, rest);
    L3OfDatagram4(lead, frag, ttl, check, t.src, t.dst, options, t.proto, Segment(t, rest));
    PortsOfSegment(p, 20 + |options|, t, rest);
  }

  // ---- frames cut short --------------------------------------------------------------------------------

  lemma CutFrame(f: seq<nat>, n: nat, family: nat, p: seq<nat>)
    requires n <= |f| && |f| >= ETH_HLEN && f[ETH_HLEN..] == p && FamilyOf(f) == family != 0
    requires FlowOf(p, family).Flow? && !IsIcmp(family, WholeL3(p, family).l3.proto) && !WholeL3(p, family).l3.fragExt
    requires ExtHeaders(p, family) <= MAX_EXT_HDRS
    ensures Parse(f[..n]).rc.Ok? <==> 14 + Reach(p, family) <= n
    ensures Parse(f[..n]).rc.Ok? ==> Parse(f[..n]).ctx.tuple == FlowOf(p, family).tuple
  {
    if n >= ETH_HLEN {
      var g, m := f[..n], n - ETH_HLEN;
      assert g[ETH_HLEN..] == p[..m] && FamilyOf(g) == family;
      QuoteSuffices(p, m, family);
      if WholeL3(p[..m], family).L3Found? {
        L3OfPrefix(p, m, family);
      }
      ForwardTuple(g);
    }
  }

  /** However a frame is cut, it is admitted exactly when its ports are still there, and then with
      its own tuple. */
  lemma CutFrame6(macs: seq<nat>, lead: seq<nat>, hop: nat, t: Ends, exts: seq<Ext>, rest: seq<nat>, n: nat)
    requires |macs| == 12 && Valid6(lead, t, exts) && |exts| <= 8
    requires n <= |Frame(macs, AF_INET6, Packet6(lead, hop, t, exts, rest))|
    ensures var r := Parse(Frame(macs, AF_INET6, Packet6(lead, hop, t, exts, rest))[..n]);
            (r.rc.Ok? <==> 58 + |ExtsBytes(exts, t.proto)| <= n) && (r.rc.Ok? ==> r.ctx.tuple == Tuple6(t))
  {
    var p := Packet6(lead, hop, t, exts, rest);
    FrameFields(macs, AF_INET6, p);
    FlowOfPacket6(lead, hop, t, exts, rest);
    L3OfDatagram6(lead, hop, t.src, t.dst, exts, t.proto, Segment(t, rest));
    CutFrame(Frame(macs, AF_INET6, p), n, AF_INET6, p);
  }

  lemma CutFrame4(macs: seq<nat>, lead: seq<nat>, frag: nat, ttl: nat, check: seq<nat>, t: Ends, options: seq<nat>, rest: seq<nat>, n: nat)
    requires |macs| == 12 && Valid4(lead, frag, check, t, options)
    requires n <= |Frame(macs, AF_INET, Packet4(lead, frag, ttl, check, t, options, rest))|
    ensures var r := Parse(Frame(macs, AF_INET, Packet4(lead, frag, ttl, check, t, options, rest))[..n]);
            (r.rc.Ok? <==> 38 + |options| <= n) && (r.rc.Ok? ==> r.ctx.tuple == Tuple4(t))
  {
    var p := Packet4(lead, frag, ttl, check, t, options, rest);
    FrameFields(macs, AF_INET, p);
    FlowOfPacket4(lead, frag, ttl, check, t, options, rest);
    L3OfDatagram4(lead, frag, ttl, check, t.src, t.dst, options, t.proto, Segment(t, rest));
    CutFrame(Frame(macs, AF_INET, p), n, AF_INET, p);
  }

  // ---- ICMPv6 errors ------------------------------------------------------------------------------------

  /** An ICMPv6 message from anywhere to anywhere, quoting some bytes. */
  function Error6(macs: seq<nat>, lead: seq<nat>, hop: nat, src: seq<nat>, dst: seq<nat>, exts: seq<Ext>,
                  kind: nat, more: seq<nat>, quote: seq<nat>): seq<nat> {
    Frame(macs, AF_INET6, Datagram6(lead, hop, src, dst, exts, 58, [kind] + more + quote))
  }

  lemma Quoted(f: seq<nat>, off: nat, kind: nat, more: seq<nat>, quote: seq<nat>)
    requires off <= |f| && f[off..] == [kind] + more + quote && |more| == 7
    ensures off + 8 <= |f| && f[off] == kind && f[off + 8..] == quote
  {
    assert f[off] == f[off..][0] && f[off + 8..] == f[off..][8..];
  }

  lemma Error6Quotes(macs: seq<nat>, lead: seq<nat>, hop: nat, src: seq<nat>, dst: seq<nat>, exts: seq<Ext>,
                     kind: nat, more: seq<nat>, quote: seq<nat>)
    requires |macs| == 12 && Layout6(lead, src, dst, exts) && |exts| <= 8 && kind in {1, 2, 3, 4} && |more| == 7
    ensures var e, q := Error6(macs, lead, hop, src, dst, exts, kind, more, quote), 62 + |ExtsBytes(exts, 58)|;
            QuotesAt(e, q) && FamilyOf(e) == AF_INET6 && e[q..] == quote
  {
    var p := Datagram6(lead, hop, src, dst, exts, 58, [kind] + more + quote);
    L3OfDatagram6(lead, hop, src, dst, exts, 58, [kind] + more + quote);
    var l3 := WholeL3(p, AF_INET6).l3;
    FrameCarries(macs, AF_INET6, p, l3, [kind] + more + quote);
    Quoted(Frame(macs, AF_INET6, p), 14 + l3.l4Off, kind, more, quote);
  }

  /** End to end on the wire: the client's packet, the backend's reply with its own extension
      headers, and any ICMPv6 error, from whichever router, that quotes `n` bytes of that reply.
      The error is admitted exactly when the quote reaches past the ports behind at most two
      extension headers, and then has the tuple of the client's packet. */
  lemma WireAffinity6(macs: seq<nat>, lead: seq<nat>, hop: nat, t: Ends, exts: seq<Ext>, rest: seq<nat>,
                      lead': seq<nat>, hop': nat, exts': seq<Ext>, rest': seq<nat>, n: nat,
                      macs'': seq<nat>, lead'': seq<nat>, hop'': nat, src: seq<nat>, dst: seq<nat>, exts'': seq<Ext>,
                      kind: nat, more: seq<nat>)
    requires |macs| == 12 && Valid6(lead, t, exts) && |exts| <= 8 && Valid6(lead', Swapped(t), exts')
    requires n <= |Packet6(lead', hop', Swapped(t), exts', rest')|
    requires |macs''| == 12 && Layout6(lead'', src, dst, exts'') && |exts''| <= 8 && kind in {1, 2, 3, 4} && |more| == 7
    ensures var f := Frame(macs, AF_INET6, Packet6(lead, hop, t, exts, rest));
            var reply := Packet6(lead', hop', Swapped(t), exts', rest');
            var e := Error6(macs'', lead'', hop'', src, dst, exts'', kind, more, reply[..n]);
            && (Parse(e).rc.Ok? <==> 44 + |ExtsBytes(exts', t.proto)| <= n && |exts'| <= 2)
            && (Parse(e).rc.Ok? ==> Parse(e).ctx.tuple == Parse(f).ctx.tuple == Tuple6(t))
  {
    var reply := Packet6(lead', hop', Swapped(t), exts', rest');
    ParseOfFrame6(macs, lead, hop, t, exts, rest);
    FlowOfPacket6(lead', hop', Swapped(t), exts', rest');
    Error6Quotes(macs'', lead'', hop'', src, dst, exts'', kind, more, reply[..n]);
    ErrorTuple(Error6(macs'', lead'', hop'', src, dst, exts'', kind, more, reply[..n]), 62 + |ExtsBytes(exts'', 58)|);
    QuoteSuffices(reply, n, AF_INET6);
  }

  // ---- ICMPv4 errors ------------------------------------------------------------------------------------

  function Error4(macs: seq<nat>, lead: seq<nat>, frag: nat, ttl: nat, check: seq<nat>, src: seq<nat>, dst: seq<nat>, options: seq<nat>,
                  kind: nat, more: seq<nat>, quote: seq<nat>): seq<nat> {
    Frame(macs, AF_INET, Datagram4(lead, frag, ttl, check, src, dst, options, 1, [kind] + more + quote))
  }

  lemma Error4Quotes(macs: seq<nat>, lead: seq<nat>, frag: nat, ttl: nat, check: seq<nat>, src: seq<nat>, dst: seq<nat>, options: seq<nat>,
                     kind: nat, more: seq<nat>, quote: seq<nat>)
    requires |macs| == 12 && Layout4(lead, frag, check, src, dst, options) && frag % 0x2000 == 0
    requires |more| == 7 && kind in {3, 11, 12}
    ensures var e, q := Error4(macs, lead, frag, ttl, check, src, dst, options, kind, more, quote), 42 + |options|;
            QuotesAt(e, q) && FamilyOf(e) == AF_INET && e[q..] == quote
  {
    var p := Datagram4(lead, frag, ttl, check, src, dst, options, 1, [kind] + more + quote);
    L3OfDatagram4(lead, frag, ttl, check, src, dst, options, 1, [kind] + more + quote);
    var l3 := WholeL3(p, AF_INET).l3;
    FrameCarries(macs, AF_INET, p, l3, [kind] + more + quote);
    Quoted(Frame(macs, AF_INET, p), 14 + l3.l4Off, kind, more, quote);
  }

  /** The same end to end over IPv4, with any options in every header; each of the three may be
      the first fragment of its datagram. */
  lemma WireAffinity4(macs: seq<nat>, lead: seq<nat>, frag: nat, ttl: nat, check: seq<nat>, t: Ends, options: seq<nat>, rest: seq<nat>,
                      lead': seq<nat>, frag': nat, ttl': nat, check': seq<nat>, options': seq<nat>, rest': seq<nat>, n: nat,
                      macs'': seq<nat>, lead'': seq<nat>, frag'': nat, ttl'': nat, check'': seq<nat>, src: seq<nat>, dst: seq<nat>,
                      options'': seq<nat>, kind: nat, more: seq<nat>)
    requires |macs| == 12 && Valid4(lead, frag, check, t, options) && Valid4(lead', frag', check', Swapped(t), options')
    requires n <= |Packet4(lead', frag', ttl', check', Swapped(t), options', rest')|
    requires |macs''| == 12 && Layout4(lead'', frag'', check'', src, dst, options'') && frag'' % 0x2000 == 0
    requires |more| == 7 && kind in {3, 11, 12}
    ensures var f := Frame(macs, AF_INET, Packet4(lead, frag, ttl, check, t, options, rest));
            var reply := Packet4(lead', frag', ttl', check', Swapped(t), options', rest');
            var e := Error4(macs'', lead'', frag'', ttl'', check'', src, dst, options'', kind, more, reply[..n]);
            && (Parse(e).rc.Ok? <==> 24 + |options'| <= n)
            && (Parse(e).rc.Ok? ==> Parse(e).ctx.tuple == Parse(f).ctx.tuple == Tuple4(t))
  {
    var reply := Packet4(lead', frag', ttl', check', Swapped(t), options', rest');
    FieldOf(frag);
    ParseOfFrame4(macs, lead, frag / 0x8000, frag / 0x4000 % 2, frag / 0x2000 % 2, 0, ttl, check, t, options, rest);
    FlowOfPacket4(lead', frag', ttl', check', Swapped(t), options', rest');
    Error4Quotes(macs'', lead'', frag'', ttl'', check'', src, dst, options'', kind, more, reply[..n]);
    ErrorTuple(Error4(macs'', lead'', frag'', ttl'', check'', src, dst, options'', kind, more, reply[..n]), 42 + |options''|);
    QuoteSuffices(reply, n, AF_INET);
  }

  lemma FieldOf(frag: nat)
    requires frag < 65536 && frag % 0x2000 == 0
    ensures frag == Field4(frag / 0x8000, frag / 0x4000 % 2, frag / 0x2000 % 2, 0)
  {
    var k := frag / 0x2000;
    DivisionUnique(frag, 0x4000, k / 2, k % 2 * 0x2000);
    DivisionUnique(frag, 0x8000, k / 4, k % 4 * 0x2000);
    assert k == 4 * (k / 4) + 2 * (k / 2 % 2) + k % 2;
  }
}
