/** Packets of one flow parse to one tuple: a flow's own packets, the ICMP errors about it and
    its IPv6 fragments (parser.c). */
module Affinity {
  import opened Types
  import opened Checksum
  import opened Parser

  // ---- a flow, read off an IP packet on its own --------------------------------------------------

  datatype Flow = NoFlow | Flow(tuple: Tuple)

  /** The network header of an IP packet, with no limit on extension headers. */
  function WholeL3(p: seq<nat>, family: nat): L3Result {
    if family == AF_INET then Ipv4Of(p, 0)
    else if |p| < 40 then L3Drop(DropParseError)
    else Ipv6Of(p, 0, Ipv6Chain(p, 0).walk)
  }

  function ExtHeaders(p: seq<nat>, family: nat): nat {
    if family == AF_INET || |p| < 40 then 0 else Ipv6Chain(p, 0).headers
  }

  /** The addresses, ports and protocol of an IP packet that carries its transport header. */
  function FlowOf(p: seq<nat>, family: nat): Flow {
    match WholeL3(p, family)
    case L3Drop(_) => NoFlow
    case L3Found(l3) =>
      match PortsOf(p, l3.l4Off, l3.proto)
      case NoPorts(_) => NoFlow
      case Ports(sport, dport) => if l3.frag then NoFlow else Flow(Tuple(l3.src, l3.dst, sport, dport, l3.proto, family))
  }

  function Reversed(t: Tuple): Tuple { t.(src := t.dst, dst := t.src, sport := t.dport, dport := t.sport) }

  // ---- position does not matter ---------------------------------------------------------------------

  function MoveWalk(w: Walk, k: nat): Walk { if w.Upper? then w.(l4Off := w.l4Off + k) else w }

  function MoveL3(r: L3Result, k: nat): L3Result {
    if r.L3Found? then L3Found(r.l3.(l4Off := r.l3.l4Off + k)) else r
  }

  lemma {:induction false} ChainMoves(f: seq<nat>, k: nat, off: nat, nh: nat, first: bool, ext: bool)
    requires k <= |f|
    ensures var c := ChainOf(f[k..], off, nh, first, ext);
            ChainOf(f, k + off, nh, first, ext) == Chain(c.headers, MoveWalk(c.walk, k))
    decreases if off <= |f| then |f| - off else 0
  {
    if IsExt6(nh) && !Unsupported(nh) && k + off + 2 <= |f| {
      var p := f[k..];
      assert p[off] == f[k + off] && p[off + 1] == f[k + off + 1];
      if nh != FRAGMENT {
        ChainMoves(f, k, off + (p[off + 1] + 1) * 8, p[off], first, ext);
      } else if k + off + 8 <= |f| {
        var v := Be16At(p, off + 2);
        assert v == Be16At(f, k + off + 2);
        var first' := first || Head6(v);
        var ext' := ext || ((Tail6(v) || first') && IsExt6(p[off]));
        if !Tail6(v) {
          ChainMoves(f, k, off + 8, p[off], first', ext');
        }
      }
    }
  }

  lemma WordsMove(f: seq<nat>, k: nat, off: nat)
    requires k <= |f| && k + off + 16 <= |f|
    ensures Words4(f[k..], off) == Words4(f, k + off)
  {
  }

  lemma L3Moves(f: seq<nat>, k: nat, family: nat, maxExt: nat)
    requires k <= |f|
    ensures L3Of(f, k, family, maxExt) == MoveL3(L3Of(f[k..], 0, family, maxExt), k)
  {
    var p := f[k..];
    if family != AF_INET && k + 40 <= |f| {
      ChainMoves(f, k, 40, f[k + 6], false, false);
      assert p[6] == f[k + 6];
      WordsMove(f, k, 8);
      WordsMove(f, k, 24);
    } else if family == AF_INET && k + 20 <= |f| {
      assert p[0] == f[k] && p[9] == f[k + 9];
    }
  }

  lemma PortsMove(f: seq<nat>, k: nat, l4Off: nat, proto: nat)
    requires k <= |f|
    ensures PortsOf(f, k + l4Off, proto) == PortsOf(f[k..], l4Off, proto)
  {
  }

  // ---- what a truncated packet still says is right ----------------------------------------------------

  lemma {:induction false} ChainOfPrefix(p: seq<nat>, n: nat, off: nat, nh: nat, first: bool, ext: bool)
    requires n <= |p| && ChainOf(p[..n], off, nh, first, ext).walk.Upper?
    ensures ChainOf(p, off, nh, first, ext) == ChainOf(p[..n], off, nh, first, ext)
    decreases if off <= |p| then |p| - off else 0
  {
    if IsExt6(nh) && !Unsupported(nh) {
      var s := p[..n];
      if nh != FRAGMENT {
        ChainOfPrefix(p, n, off + (s[off + 1] + 1) * 8, s[off], first, ext);
      } else {
        var v := Be16At(s, off + 2);
        var first' := first || Head6(v);
        var ext' := ext || ((Tail6(v) || first') && IsExt6(s[off]));
        if !Tail6(v) {
          ChainOfPrefix(p, n, off + 8, s[off], first', ext');
        }
      }
    }
  }

  lemma L3OfPrefix(p: seq<nat>, n: nat, family: nat)
    requires n <= |p| && WholeL3(p[..n], family).L3Found?
    ensures WholeL3(p, family) == WholeL3(p[..n], family)
  {
    var s := p[..n];
    if family != AF_INET {
      ChainOfPrefix(p, n, 40, s[6], false, false);
      assert Words4(s, 8) == Words4(p, 8) && Words4(s, 24) == Words4(p, 24);
    }
  }

  /** The first byte behind the ports of a packet that states a flow. */
  function Reach(p: seq<nat>, family: nat): nat
    requires FlowOf(p, family).Flow?
  {
    WholeL3(p, family).l3.l4Off + 4
  }

  /** Everything the chain reads lies in front of the transport header it leads to. */
  lemma {:induction false} ChainKeptByPrefix(p: seq<nat>, n: nat, off: nat, nh: nat, first: bool, ext: bool)
    requires n <= |p| && ChainOf(p, off, nh, first, ext).walk.Upper? && ChainOf(p, off, nh, first, ext).walk.l4Off <= n
    ensures off <= ChainOf(p, off, nh, first, ext).walk.l4Off
    ensures ChainOf(p[..n], off, nh, first, ext) == ChainOf(p, off, nh, first, ext)
    decreases if off <= |p| then |p| - off else 0
  {
    if IsExt6(nh) && !Unsupported(nh) {
      if nh != FRAGMENT {
        ChainKeptByPrefix(p, n, off + (p[off + 1] + 1) * 8, p[off], first, ext);
      } else {
        var v := Be16At(p, off + 2);
        var first' := first || Head6(v);
        var ext' := ext || ((Tail6(v) || first') && IsExt6(p[off]));
        if !Tail6(v) {
          ChainKeptByPrefix(p, n, off + 8, p[off], first', ext');
        }
      }
    }
  }

  lemma L3KeptByPrefix(p: seq<nat>, n: nat, family: nat)
    requires n <= |p| && WholeL3(p, family).L3Found? && WholeL3(p, family).l3.l4Off <= n
    ensures WholeL3(p[..n], family) == WholeL3(p, family) && ExtHeaders(p[..n], family) == ExtHeaders(p, family)
  {
    var s := p[..n];
    if family != AF_INET {
      ChainKeptByPrefix(p, n, 40, p[6], false, false);
      assert Words4(s, 8) == Words4(p, 8) && Words4(s, 24) == Words4(p, 24);
    } else {
      assert s[0] == p[0] && s[9] == p[9];
    }
  }

  /** A prefix of a packet states its flow exactly when it reaches past the ports. */
  lemma QuoteSuffices(p: seq<nat>, n: nat, family: nat)
    requires n <= |p| && FlowOf(p, family).Flow?
    ensures FlowOf(p[..n], family).Flow? <==> Reach(p, family) <= n
    ensures Reach(p, family) <= n ==> FlowOf(p[..n], family) == FlowOf(p, family) && ExtHeaders(p[..n], family) == ExtHeaders(p, family)
  {
    if Reach(p, family) <= n {
      L3KeptByPrefix(p, n, family);
    } else if FlowOf(p[..n], family).Flow? {
      L3OfPrefix(p, n, family);
    }
  }

  // ---- a flow's own packets ----------------------------------------------------------------------------------

  /** A packet that is neither a later fragment nor ICMP is admitted exactly when its headers
      state a flow within the header limit and no fragment of it opens with an extension
      header; its tuple is then that flow. */
  lemma ForwardTuple(f: seq<nat>)
    requires |f| >= ETH_HLEN && FamilyOf(f) != 0
    requires var r := WholeL3(f[ETH_HLEN..], FamilyOf(f)); r.L3Found? ==> !r.l3.frag && !IsIcmp(FamilyOf(f), r.l3.proto)
    ensures var p, family := f[ETH_HLEN..], FamilyOf(f);
            if FlowOf(p, family).Flow? && ExtHeaders(p, family) <= MAX_EXT_HDRS && !WholeL3(p, family).l3.fragExt
            then Parse(f).rc.Ok? && Parse(f).ctx.tuple == FlowOf(p, family).tuple && Icmp !in Parse(f).ctx.flags
            else !Parse(f).rc.Ok?
  {
    var p, family := f[ETH_HLEN..], FamilyOf(f);
    L3Moves(f, ETH_HLEN, family, MAX_EXT_HDRS);
    BoundedL3(p, family, MAX_EXT_HDRS);
    var own := L3Of(p, 0, family, MAX_EXT_HDRS);
    if own.L3Found? {
      PortsMove(f, ETH_HLEN, own.l3.l4Off, own.l3.proto);
    }
  }

  /** The tuple of an admitted packet that is neither comes from its own headers. */
  lemma OwnHeaders(f: seq<nat>)
    requires Parse(f).rc.Ok? && Icmp !in Parse(f).ctx.flags && Frag !in Parse(f).ctx.flags
    ensures |f| >= ETH_HLEN && FlowOf(f[ETH_HLEN..], FamilyOf(f)) == Flow(Parse(f).ctx.tuple)
  {
    var p, family := f[ETH_HLEN..], FamilyOf(f);
    L3Moves(f, ETH_HLEN, family, MAX_EXT_HDRS);
    BoundedL3(p, family, MAX_EXT_HDRS);
    ForwardTuple(f);
  }

  // ---- ICMP errors --------------------------------------------------------------------------------------------

  /** `e` is a whole ICMP error, or the head of a fragmented one, and its quoted packet starts
      at `q`. */
  ghost predicate QuotesAt(e: seq<nat>, q: nat) {
    && |e| >= ETH_HLEN && FamilyOf(e) != 0
    && var r := L3Of(e, ETH_HLEN, FamilyOf(e), MAX_EXT_HDRS);
    && r.L3Found? && !r.l3.frag && !r.l3.fragExt && IsIcmp(FamilyOf(e), r.l3.proto)
    && q == r.l3.l4Off + 8 <= |e| && IcmpError(FamilyOf(e), e[r.l3.l4Off])
  }

  /** The tuple of an admitted error is that of a packet it quotes, seen from the other end. */
  lemma IcmpTupleIsQuoted(e: seq<nat>) returns (q: nat)
    requires Parse(e).rc.Ok? && Icmp in Parse(e).ctx.flags
    ensures QuotesAt(e, q) && FlowOf(e[q..], FamilyOf(e)).Flow? && Parse(e).ctx.tuple == Reversed(FlowOf(e[q..], FamilyOf(e)).tuple)
  {
    q := L3Of(e, ETH_HLEN, FamilyOf(e), MAX_EXT_HDRS).l3.l4Off + 8;
    ErrorTuple(e, q);
  }

  lemma BoundedL3(p: seq<nat>, family: nat, maxExt: nat)
    ensures L3Of(p, 0, family, maxExt) ==
            if ExtHeaders(p, family) <= maxExt then WholeL3(p, family) else L3Drop(DropExtHdrLimit)
  {
  }

  /** An error is admitted exactly when its quote states a flow within the smaller header limit,
      and it then carries that flow seen from the other end; otherwise it is refused. */
  lemma ErrorTuple(e: seq<nat>, q: nat)
    requires QuotesAt(e, q)
    ensures var flow := FlowOf(e[q..], FamilyOf(e));
            if flow.Flow? && ExtHeaders(e[q..], FamilyOf(e)) <= ICMP_EMB_EXT_HDRS
            then Parse(e).rc.Ok? && Icmp in Parse(e).ctx.flags && Parse(e).ctx.tuple == Reversed(flow.tuple)
            else Parse(e).rc.DropIcmpUnparseable?
  {
    var family := FamilyOf(e);
    L3Moves(e, q, family, ICMP_EMB_EXT_HDRS);
    BoundedL3(e[q..], family, ICMP_EMB_EXT_HDRS);
    var emb := L3Of(e[q..], 0, family, ICMP_EMB_EXT_HDRS);
    if emb.L3Found? {
      PortsMove(e, q, emb.l3.l4Off, emb.l3.proto);
    }
  }

  /** The IP packet `reply` runs the other way between the end points of the frame `f`. */
  ghost predicate IsReply(f: seq<nat>, reply: seq<nat>) {
    && |f| >= ETH_HLEN
    && var there := FlowOf(f[ETH_HLEN..], FamilyOf(f));
    && there.Flow? && FlowOf(reply, FamilyOf(f)) == Flow(Reversed(there.tuple))
  }

  /** An ICMP error that quotes any part of a flow's reply is admitted exactly when the quote
      reaches past the ports, behind at most two extension headers; it then has the very tuple
      of that flow's own packets. */
  lemma IcmpAffinity(f: seq<nat>, reply: seq<nat>, e: seq<nat>, q: nat)
    requires Parse(f).rc.Ok? && Icmp !in Parse(f).ctx.flags && Frag !in Parse(f).ctx.flags
    requires IsReply(f, reply)
    requires QuotesAt(e, q) && FamilyOf(e) == FamilyOf(f) && e[q..] <= reply
    ensures Parse(e).rc.Ok? <==> Reach(reply, FamilyOf(f)) <= |e| - q && ExtHeaders(reply, FamilyOf(f)) <= ICMP_EMB_EXT_HDRS
    ensures Parse(e).rc.Ok? ==> Parse(e).ctx.tuple == Parse(f).ctx.tuple
  {
    OwnHeaders(f);
    ErrorTuple(e, q);
    assert e[q..] == reply[..|e| - q];
    QuoteSuffices(reply, |e| - q, FamilyOf(f));
  }

  // ---- IPv6 fragments ---------------------------------------------------------------------------------------------

  const EXT_OFF: nat := 54

  /** At offset zero, with more to follow. */
  ghost predicate HeadField6(v: nat) {
    exists reserved :: 0 <= reserved < 4 && v == Field6(0, reserved, 1)
  }

  /** At any other offset. */
  ghost predicate TailField6(v: nat) {
    exists offset, reserved, more :: 0 < offset < 0x2000 && 0 <= reserved < 4 && 0 <= more < 2 && v == Field6(offset, reserved, more)
  }

  /** The parser's tests read the fields. */
  lemma FieldsRead6(offset: nat, reserved: nat, more: nat)
    requires offset < 0x2000 && reserved < 4 && more < 2
    ensures Tail6(Field6(offset, reserved, more)) <==> offset != 0
    ensures Head6(Field6(offset, reserved, more)) <==> offset == 0 && more == 1
  {
  }

  lemma PairRead6(head: nat, tail: nat)
    requires HeadField6(head) && TailField6(tail)
    ensures Head6(head) && !Tail6(head) && Tail6(tail)
  {
    var reserved :| 0 <= reserved < 4 && head == Field6(0, reserved, 1);
    FieldsRead6(0, reserved, 1);
    var offset, r, more :| 0 < offset < 0x2000 && 0 <= r < 4 && 0 <= more < 2 && tail == Field6(offset, r, more);
    FieldsRead6(offset, r, more);
  }

  /** Extension headers other than Fragment lead from `off` to a Fragment header at `at`. */
  ghost predicate Reaches(f: seq<nat>, off: nat, nh: nat, at: nat)
    requires at <= |f|
    decreases at - off
  {
    if nh == FRAGMENT then off == at
    else IsExt6(nh) && off + 8 <= at && Reaches(f, off + (f[off + 1] + 1) * 8, f[off], at)
  }

  /** The first and a later fragment of one datagram: same addresses, same headers up to the
      Fragment header at `at`, same Next Header in it. Lengths, hop limits, traffic class and
      flow label may differ. */
  ghost predicate FragmentPair(head: seq<nat>, tail: seq<nat>, at: nat) {
    && EXT_OFF <= at && at + 8 <= |head| && at + 8 <= |tail|
    && FamilyOf(head) == FamilyOf(tail) == AF_INET6
    && head[20] == tail[20] && head[22..at] == tail[22..at] && head[at] == tail[at]
    && Reaches(head, EXT_OFF, head[20], at)
    && HeadField6(Be16At(head, at + 2)) && TailField6(Be16At(tail, at + 2))
  }

  function Prepend(k: nat, c: Chain): Chain { c.(headers := c.headers + k) }

  /** Two frames with the same unfragmentable part reach the Fragment header over the same
      number of headers. */
  lemma {:induction false} SameApproach(h: seq<nat>, t: seq<nat>, off: nat, nh: nat, at: nat) returns (k: nat)
    requires EXT_OFF <= off && at <= |h| && at <= |t| && EXT_OFF <= at && h[22..at] == t[22..at] && Reaches(h, off, nh, at)
    ensures ChainOf(h, off, nh, false, false) == Prepend(k, ChainOf(h, at, FRAGMENT, false, false))
    ensures ChainOf(t, off, nh, false, false) == Prepend(k, ChainOf(t, at, FRAGMENT, false, false))
    decreases at - off
  {
    if nh == FRAGMENT {
      k := 0;
    } else {
      assert h[off] == h[22..at][off - 22] == t[off] && h[off + 1] == h[22..at][off - 21] == t[off + 1];
      k := SameApproach(h, t, off + (h[off + 1] + 1) * 8, h[off], at);
      k := k + 1;
    }
  }

  /** Where the two halves stop: the tail at once, the head wherever its own headers lead,
      marked when the fragmentable part opens with an extension header. */
  lemma AtFragmentHeader(h: seq<nat>, t: seq<nat>, at: nat)
    requires FragmentPair(h, t, at)
    ensures ChainOf(t, at, FRAGMENT, false, false) == Chain(1, Upper(h[at], at + 8, true, false, IsExt6(h[at])))
    ensures ChainOf(h, at, FRAGMENT, false, false) == More(ChainOf(h, at + 8, h[at], true, IsExt6(h[at])))
  {
    PairRead6(Be16At(h, at + 2), Be16At(t, at + 2));
  }

  lemma SharedAddresses(h: seq<nat>, t: seq<nat>, at: nat)
    requires FragmentPair(h, t, at)
    ensures Words4(h, 22) == Words4(t, 22) && Words4(h, 38) == Words4(t, 38)
  {
    assert forall i :: 22 <= i < at ==> h[i] == h[22..at][i - 22] == t[22..at][i - 22] == t[i];
  }

  /** The network headers of the two halves. */
  lemma FragmentHeaders(h: seq<nat>, t: seq<nat>, at: nat) returns (k: nat)
    requires FragmentPair(h, t, at)
    ensures L3Of(t, ETH_HLEN, AF_INET6, MAX_EXT_HDRS) ==
            if k < MAX_EXT_HDRS then L3Found(L3(Words4(h, 22), Words4(h, 38), at + 8, h[at], true, false, IsExt6(h[at])))
            else L3Drop(DropExtHdrLimit)
    ensures L3Of(h, ETH_HLEN, AF_INET6, MAX_EXT_HDRS) ==
            Ipv6Of(h, ETH_HLEN, Bounded(Prepend(k + 1, ChainOf(h, at + 8, h[at], true, IsExt6(h[at]))), MAX_EXT_HDRS))
  {
    k := SameApproach(h, t, EXT_OFF, h[20], at);
    AtFragmentHeader(h, t, at);
    SharedAddresses(h, t, at);
  }

  /** When the fragmentable part opens with an extension header, ESP or AH, both halves are
      dropped, so neither can take a path of its own. */
  lemma FragmentsRefused(h: seq<nat>, t: seq<nat>, at: nat)
    requires FragmentPair(h, t, at) && h[at] in {0, 43, 44, 50, 51, 60}
    ensures IsDrop(Parse(h).rc) && IsDrop(Parse(t).rc)
  {
    var k := FragmentHeaders(h, t, at);
  }

  /** Two admitted halves agree on everything but the ports, which only the head has; and when
      the transport has ports and the head holds them, one is admitted exactly when the other is. */
  lemma FragmentsAgree(h: seq<nat>, t: seq<nat>, at: nat)
    requires FragmentPair(h, t, at)
    ensures Parse(h).rc.Ok? && Parse(t).rc.Ok? ==>
              && Parse(t).ctx.tuple == Parse(h).ctx.tuple.(sport := 0, dport := 0)
              && Parse(t).ctx.l4Off == Parse(h).ctx.l4Off
              && FragFirst in Parse(h).ctx.flags && Frag in Parse(t).ctx.flags
    ensures h[at] in {6, 17, 132} && at + 12 <= |h| ==> (Parse(h).rc.Ok? <==> Parse(t).rc.Ok?)
  {
    var k := FragmentHeaders(h, t, at);
    if IsExt6(h[at]) || Unsupported(h[at]) {
      FragmentsRefused(h, t, at);
    }
  }

  // ---- IPv4 fragments ---------------------------------------------------------------------------------------------

  ghost predicate HeadField4(v: nat) {
    exists reserved, df :: 0 <= reserved < 2 && 0 <= df < 2 && v == Field4(reserved, df, 1, 0)
  }

  ghost predicate TailField4(v: nat) {
    exists reserved, df, mf, offset :: 0 <= reserved < 2 && 0 <= df < 2 && 0 <= mf < 2 && 0 < offset < 0x2000 && v == Field4(reserved, df, mf, offset)
  }

  lemma FieldsRead4(reserved: nat, df: nat, mf: nat, offset: nat)
    requires reserved < 2 && df < 2 && mf < 2 && offset < 0x2000
    ensures Tail4(Field4(reserved, df, mf, offset)) <==> offset != 0
    ensures Head4(Field4(reserved, df, mf, offset)) <==> offset == 0 && mf == 1
  {
  }

  lemma PairRead4(head: nat, tail: nat)
    requires HeadField4(head) && TailField4(tail)
    ensures Head4(head) && !Tail4(head) && Tail4(tail)
  {
    var reserved, df :| 0 <= reserved < 2 && 0 <= df < 2 && head == Field4(reserved, df, 1, 0);
    FieldsRead4(reserved, df, 1, 0);
    var r, d, mf, offset :| 0 <= r < 2 && 0 <= d < 2 && 0 <= mf < 2 && 0 < offset < 0x2000 && tail == Field4(r, d, mf, offset);
    FieldsRead4(r, d, mf, offset);
  }

  /** The first and a later fragment of one IPv4 datagram: same addresses and protocol. Options
      need not be copied into later fragments, so header lengths may differ. */
  ghost predicate FragmentPair4(head: seq<nat>, tail: seq<nat>) {
    && |head| >= 34 && |tail| >= 34 && FamilyOf(head) == FamilyOf(tail) == AF_INET
    && head[23] == tail[23] && head[26..34] == tail[26..34]
    && HeadField4(Be16At(head, 20)) && TailField4(Be16At(tail, 20))
  }

  /** What of such a pair the parser reads. */
  ghost predicate Halves4(h: seq<nat>, t: seq<nat>) {
    && |h| >= 34 && |t| >= 34 && FamilyOf(h) == FamilyOf(t) == AF_INET
    && h[23] == t[23] && Word(h, 26) == Word(t, 26) && Word(h, 30) == Word(t, 30)
    && Head4(Be16At(h, 20)) && !Tail4(Be16At(h, 20)) && Tail4(Be16At(t, 20))
  }

  lemma PairHalves4(h: seq<nat>, t: seq<nat>)
    requires FragmentPair4(h, t)
    ensures Halves4(h, t)
  {
    assert forall i :: 26 <= i < 34 ==> h[i] == h[26..34][i - 26] == t[26..34][i - 26] == t[i];
    PairRead4(Be16At(h, 20), Be16At(t, 20));
  }

  /** The IPv4 counterpart: ESP and AH are dropped in both halves; two admitted halves agree on
      everything but the ports; halves with whole headers are admitted together. */
  lemma FragmentsAgree4(h: seq<nat>, t: seq<nat>)
    requires FragmentPair4(h, t)
    ensures h[23] in {50, 51} ==> IsDrop(Parse(h).rc) && IsDrop(Parse(t).rc)
    ensures Parse(h).rc.Ok? && Parse(t).rc.Ok? ==>
              && Parse(t).ctx.tuple == Parse(h).ctx.tuple.(sport := 0, dport := 0)
              && FragFirst in Parse(h).ctx.flags && Frag in Parse(t).ctx.flags
              && (h[14] % 16 == t[14] % 16 ==> Parse(t).ctx.l4Off == Parse(h).ctx.l4Off)
    ensures h[23] in {6, 17, 132} && Ipv4Of(h, ETH_HLEN).L3Found? && Ipv4Of(t, ETH_HLEN).L3Found? && ETH_HLEN + h[14] % 16 * 4 + 4 <= |h| ==>
              Parse(h).rc.Ok? && Parse(t).rc.Ok?
  {
    PairHalves4(h, t);
    HalvesAgree4(h, t);
  }

  lemma HalvesAgree4(h: seq<nat>, t: seq<nat>)
    requires Halves4(h, t)
    ensures h[23] in {50, 51} ==> IsDrop(Parse(h).rc) && IsDrop(Parse(t).rc)
    ensures Parse(h).rc.Ok? && Parse(t).rc.Ok? ==>
              && Parse(t).ctx.tuple == Parse(h).ctx.tuple.(sport := 0, dport := 0)
              && FragFirst in Parse(h).ctx.flags && Frag in Parse(t).ctx.flags
              && (h[14] % 16 == t[14] % 16 ==> Parse(t).ctx.l4Off == Parse(h).ctx.l4Off)
    ensures h[23] in {6, 17, 132} && Ipv4Of(h, ETH_HLEN).L3Found? && Ipv4Of(t, ETH_HLEN).L3Found? && ETH_HLEN + h[14] % 16 * 4 + 4 <= |h| ==>
              Parse(h).rc.Ok? && Parse(t).rc.Ok?
  {
  }

  /** Two fragments of one datagram, of either family, the first one first. */
  ghost predicate SameDatagram(h: seq<nat>, t: seq<nat>) {
    FragmentPair4(h, t) || exists at :: FragmentPair(h, t, at)
  }

  lemma HalvesAgree(h: seq<nat>, t: seq<nat>)
    requires SameDatagram(h, t) && Parse(h).rc.Ok? && Parse(t).rc.Ok?
    ensures Parse(t).ctx.tuple == Parse(h).ctx.tuple.(sport := 0, dport := 0)
    ensures FragFirst in Parse(h).ctx.flags && Frag in Parse(t).ctx.flags
  {
    if FragmentPair4(h, t) {
      FragmentsAgree4(h, t);
    } else {
      var at :| FragmentPair(h, t, at);
      FragmentsAgree(h, t, at);
    }
  }

  /** The recorded length is the frame's for every frame that fits 16 bits, and for no other. */
  lemma ParsedLength(f: seq<nat>)
    ensures Parse(f).ctx.pktLen == |f| <==> |f| < 65536
  {
  }

  // ---- the transport offset fits its field ------------------------------------------------------------------------

  lemma {:induction false} ChainOffset(f: seq<nat>, off: nat, nh: nat, first: bool, ext: bool)
    requires IsBytes(f)
    ensures var c := ChainOf(f, off, nh, first, ext); c.walk.Upper? ==> off <= c.walk.l4Off <= off + c.headers * 2048
    decreases if off <= |f| then |f| - off else 0
  {
    if IsExt6(nh) && off + 2 <= |f| {
      if nh != FRAGMENT {
        ChainOffset(f, off + (f[off + 1] + 1) * 8, f[off], first, ext);
      } else if off + 8 <= |f| {
        var v := Be16At(f, off + 2);
        var first' := first || Head6(v);
        ChainOffset(f, off + 8, f[off], first', ext || ((Tail6(v) || first') && IsExt6(f[off])));
      }
    }
  }

  /** The 16-bit offset in the context is the real one, whatever the frame. */
  lemma L4OffFits(f: seq<nat>)
    requires IsBytes(f) && |f| >= ETH_HLEN && FamilyOf(f) != 0
    requires L3Of(f, ETH_HLEN, FamilyOf(f), MAX_EXT_HDRS).L3Found?
    ensures var walked := L3Of(f, ETH_HLEN, FamilyOf(f), MAX_EXT_HDRS).l3.l4Off;
            walked <= EXT_OFF + MAX_EXT_HDRS * 2048 < 65536 && Parse(f).ctx.l4Off == walked
  {
    if FamilyOf(f) == AF_INET6 {
      ChainOffset(f, EXT_OFF, f[20], false, false);
    }
  }
}
