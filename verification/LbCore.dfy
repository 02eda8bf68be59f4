/** Backend selection (lb_core.c): from a parsed packet to a VIP, a row and a backend, by hash
    or by QUIC connection ID. SipHash is an arbitrary keyed function throughout. */
module LbCore {
  import opened Types
  import opened Checksum
  import opened Parser
  import opened Affinity
  import opened LiveMaps

  const VIP_HASH_5TUPLE: nat := 4
  const VIP_QUIC: nat := 8
  const VIP_HASH_PORTS: nat := 16
  const BE_STATE: nat := 64
  const QUIC_CID_MIN: nat := 7
  const QUIC_CID_MAX: nat := 20
  const ENTROPY_OFF: nat := 3

  /** What is fed to the hash: the inputs differ in length and content. */
  datatype HashInput = WholeTuple(tuple: Tuple) | PortPair(sport: nat, dport: nat) | Source(src: seq<nat>)
                     | QuicInput(entropy: seq<nat>)

  /** The maps a packet is looked up in, and the hash with its key argument. */
  datatype Env = Env(kernel: Kernel, maxVips: nat, tableSize: nat, maxBackends: nat, hash: (HashInput, seq<nat>) -> nat)

  predicate ValidEnv(env: Env) { env.tableSize > 0 && env.maxBackends <= 65536 }

  predicate Has(flags: nat, bit: nat)
    requires bit > 0
  {
    flags / bit % 2 == 1
  }

  /** The flag word a VIP is written with: one bit each for access control, rate limit, whole
      tuple, QUIC and ports, then the connection ID length and the traffic class. */
  function FlagWord(acl: nat, limit: nat, whole: nat, quic: nat, ports: nat, clen: nat, dscp: nat): nat {
    acl + 2 * limit + 4 * whole + 8 * quic + 16 * ports + 256 * clen + 65536 * dscp
  }

  lemma FlagsRead(acl: nat, limit: nat, whole: nat, quic: nat, ports: nat, clen: nat, dscp: nat)
    requires acl < 2 && limit < 2 && whole < 2 && quic < 2 && ports < 2 && clen < 32
    ensures var flags := FlagWord(acl, limit, whole, quic, ports, clen, dscp);
            && (Has(flags, VIP_HASH_5TUPLE) <==> whole == 1) && (Has(flags, VIP_QUIC) <==> quic == 1)
            && (Has(flags, VIP_HASH_PORTS) <==> ports == 1) && CidLen(flags) == clen
  {
    var flags := FlagWord(acl, limit, whole, quic, ports, clen, dscp);
    var p := 16 * clen + 4096 * dscp;
    DivisionUnique(flags, 256, clen + 256 * dscp, acl + 2 * limit + 4 * whole + 8 * quic + 16 * ports);
    DivisionUnique(clen + 256 * dscp, 32, 8 * dscp, clen);
    DivisionUnique(flags, 16, ports + p, acl + 2 * limit + 4 * whole + 8 * quic);
    DivisionUnique(flags, 8, quic + 2 * (ports + p), acl + 2 * limit + 4 * whole);
    DivisionUnique(flags, 4, whole + 2 * (quic + 2 * (ports + p)), acl + 2 * limit);
    DivisionUnique(ports + p, 2, 8 * clen + 2048 * dscp, ports);
    DivisionUnique(quic + 2 * (ports + p), 2, ports + p, quic);
    DivisionUnique(whole + 2 * (quic + 2 * (ports + p)), 2, quic + 2 * (ports + p), whole);
  }

  datatype Vip = NoVip | Vip(meta: VipMeta)

  datatype Choice = NoChoice | Chosen(backend: Backend)

  // ---- the VIP -----------------------------------------------------------------------------------

  function VipKeyOf(t: Tuple): VipKey
    requires |t.dst| == 4
  {
    VipKey(t.family, if t.family == AF_INET then [t.dst[0], 0, 0, 0] else t.dst, t.dport, t.proto)
  }

  function Find(m: map<VipKey, VipMeta>, key: VipKey): Vip { if key in m then Vip(m[key]) else NoVip }

  /** The exact port first, then the entry for any port. */
  function SelectVip(m: map<VipKey, VipMeta>, t: Tuple): Vip
    requires |t.dst| == 4
  {
    var key := VipKeyOf(t);
    if key in m then Vip(m[key]) else Find(m, key.(port := 0))
  }

  // ---- selection by hash --------------------------------------------------------------------------

  function HashInputOf(t: Tuple, flags: nat): HashInput {
    if Has(flags, VIP_HASH_5TUPLE) then WholeTuple(t)
    else if Has(flags, VIP_HASH_PORTS) then PortPair(t.sport, t.dport)
    else Source(t.src)
  }

  function HashRow(env: Env, t: Tuple, meta: VipMeta): (row: nat)
    requires ValidEnv(env)
    ensures row < env.tableSize
  {
    env.hash(HashInputOf(t, meta.flags), meta.hashKey) % env.tableSize
  }

  ghost predicate SameRow(env: Env, hash: (HashInput, seq<nat>) -> nat, t: Tuple, u: Tuple, meta: VipMeta)
    requires ValidEnv(env)
  {
    HashRow(env.(hash := hash), t, meta) == HashRow(env.(hash := hash), u, meta)
  }

  /** What the hash modes mean: two packets are sure to share a row exactly when they agree on
      the whole tuple, on both ports, or on the source address, as the VIP's mode has it. */
  lemma RowDependsExactly(env: Env, t: Tuple, u: Tuple, meta: VipMeta)
    requires ValidEnv(env) && env.tableSize > 1
    ensures (forall hash :: SameRow(env, hash, t, u, meta)) <==>
            if Has(meta.flags, VIP_HASH_5TUPLE) then t == u
            else if Has(meta.flags, VIP_HASH_PORTS) then t.sport == u.sport && t.dport == u.dport
            else t.src == u.src
  {
    if HashInputOf(t, meta.flags) != HashInputOf(u, meta.flags) {
      var hash := SomeHashSeparates(env, t, u, meta);
    }
  }

  lemma SomeHashSeparates(env: Env, t: Tuple, u: Tuple, meta: VipMeta) returns (hash: (HashInput, seq<nat>) -> nat)
    requires ValidEnv(env) && env.tableSize > 1 && HashInputOf(t, meta.flags) != HashInputOf(u, meta.flags)
    ensures !SameRow(env, hash, t, u, meta)
  {
    var input := HashInputOf(t, meta.flags);
    hash := (x: HashInput, key: seq<nat>) => if x == input then 0 else 1;
    assert HashRow(env.(hash := hash), t, meta) == 0 && HashRow(env.(hash := hash), u, meta) == 1;
  }

  /** A slot of the backends array; a slot nobody populated reads as zeroes. */
  function Slot(env: Env, id: nat): Backend {
    if id in env.kernel.backends then env.kernel.backends[id] else Backend(0, [0, 0, 0, 0], 0, 0, [0, 0, 0, 0, 0, 0])
  }

  predicate Up(b: Backend) { Has(b.flags, BE_STATE) }

  function SelectByHash(env: Env, t: Tuple, meta: VipMeta): Choice
    requires ValidEnv(env)
  {
    if meta.vipNum >= env.maxVips then NoChoice else
    var id := Row(env.kernel, env.tableSize, meta.vipNum, HashRow(env, t, meta));
    if id == NO_BACKEND || id >= env.maxBackends then NoChoice else Chosen(Slot(env, id))
  }

  // ---- QUIC connection IDs -----------------------------------------------------------------------------

  function Xor(a: nat, b: nat): nat
    decreases a + b
  {
    if a == 0 && b == 0 then 0 else (if a % 2 != b % 2 then 1 else 0) + 2 * Xor(a / 2, b / 2)
  }

  lemma {:induction false} XorUndoes(a: nat, b: nat)
    ensures Xor(Xor(a, b), b) == a
    decreases a + b
  {
    XorStep(a, b);
    XorStep(Xor(a, b), b);
    if a != 0 || b != 0 {
      XorUndoes(a / 2, b / 2);
    }
  }

  lemma XorStep(a: nat, b: nat)
    ensures Xor(a, b) % 2 == (if a % 2 != b % 2 then 1 else 0) && Xor(a, b) / 2 == Xor(a / 2, b / 2)
  {
  }

  lemma HalfFirst(x: nat, p: nat)
    requires p > 0
    ensures x / (2 * p) == x / 2 / p
  {
    var q, r := x / 2 / p, x / 2 % p;
    assert x / 2 == p * q + r;
    assert 2 * p * q == 2 * (p * q);
    DivisionUnique(x, 2 * p, q, 2 * r + x % 2);
  }

  lemma BitOfHalf(x: nat, p: nat)
    requires p > 0
    ensures x / (2 * p) % 2 == x / 2 / p % 2
  {
    HalfFirst(x, p);
  }

  /** Bit by bit: set where exactly one of the two is. */
  lemma {:induction false} XorBits(a: nat, b: nat, i: nat)
    ensures Xor(a, b) / Pow2(i) % 2 == 1 <==> (a / Pow2(i) % 2 == 1) != (b / Pow2(i) % 2 == 1)
    decreases i
  {
    XorStep(a, b);
    if i == 0 {
      assert Pow2(i) == 1;
    } else {
      var p, x := Pow2(i - 1), Xor(a, b);
      assert Pow2(i) == 2 * p;
      XorBits(a / 2, b / 2, i - 1);
      BitOfHalf(a, p);
      BitOfHalf(b, p);
      BitOfHalf(x, p);
    }
  }

  lemma {:induction false} XorStaysNarrow(a: nat, b: nat, n: nat)
    requires a < Pow2(n) && b < Pow2(n)
    ensures Xor(a, b) < Pow2(n)
  {
    if n > 0 {
      XorStaysNarrow(a / 2, b / 2, n - 1);
    }
  }

  lemma XorOf16Bits(a: nat, b: nat)
    requires a < 65536 && b < 65536
    ensures Xor(a, b) < 65536
  {
    assert Pow2(4) == 16;
    assert Pow2(8) == 256;
    assert Pow2(12) == 4096;
    assert Pow2(16) == 65536;
    XorStaysNarrow(a, b, 16);
  }

  function Padded(entropy: seq<nat>): seq<nat> {
    if |entropy| < QUIC_CID_MAX - ENTROPY_OFF then entropy + seq(QUIC_CID_MAX - ENTROPY_OFF - |entropy|, i => 0) else entropy
  }

  function CidLen(flags: nat): nat { flags / 256 % 32 }

  function Mix(env: Env, meta: VipMeta, entropy: seq<nat>): nat { env.hash(QuicInput(Padded(entropy)), meta.hashKey) }

  /** What a backend puts in the connection IDs it issues: check bits, its own id under the
      mask, and the entropy the mask is derived from. */
  function EncodeCid(env: Env, meta: VipMeta, entropy: seq<nat>, id: nat): seq<nat> {
    var mix := Mix(env, meta, entropy);
    var masked := Xor(id, mix % 65536);
    [mix / 65536 % 64, masked / 256 % 256, masked % 256] + entropy
  }

  /** The id inside a connection ID, or NO_BACKEND. */
  function DecodeCid(env: Env, meta: VipMeta, cid: seq<nat>): nat
    requires |cid| >= ENTROPY_OFF
  {
    if cid[0] >= 64 then NO_BACKEND else
    var mix := Mix(env, meta, cid[ENTROPY_OFF..]);
    if cid[0] % 64 != mix / 65536 % 64 then NO_BACKEND else
    var id := Xor(cid[1] * 256 + cid[2], mix % 65536);
    if id >= env.maxBackends then NO_BACKEND else id
  }

  lemma Unmask(stored: nat, id: nat, mask: nat)
    requires id < 65536 && mask < 65536
    ensures Xor(stored, mask) == id <==> stored == Xor(id, mask)
    ensures Xor(id, mask) < 65536
  {
    XorUndoes(stored, mask);
    XorUndoes(id, mask);
    XorOf16Bits(id, mask);
  }

  lemma TwoBytes(hi: nat, lo: nat, x: nat)
    requires hi < 256 && lo < 256 && x < 65536
    ensures hi * 256 + lo == x <==> hi == x / 256 % 256 && lo == x % 256
  {
  }

  lemma FourParts(cid: seq<nat>, a: nat, b: nat, c: nat)
    requires |cid| >= ENTROPY_OFF
    ensures cid == [a, b, c] + cid[ENTROPY_OFF..] <==> cid[0] == a && cid[1] == b && cid[2] == c
  {
    var made := [a, b, c] + cid[ENTROPY_OFF..];
    assert made[0] == a && made[1] == b && made[2] == c;
  }

  /** Decoding finds a backend exactly in the connection IDs the encoder makes for it. */
  lemma CidRoundTrip(env: Env, meta: VipMeta, cid: seq<nat>, id: nat)
    requires ValidEnv(env) && |cid| >= ENTROPY_OFF && IsBytes(cid) && id != NO_BACKEND
    ensures DecodeCid(env, meta, cid) == id <==> id < env.maxBackends && cid == EncodeCid(env, meta, cid[ENTROPY_OFF..], id)
  {
    if id < env.maxBackends {
      var mix := Mix(env, meta, cid[ENTROPY_OFF..]);
      CidMatches(env, meta, cid, id, mix, mix % 65536, Xor(id, mix % 65536), mix / 65536 % 64);
    }
  }

  lemma DecodeParts(env: Env, meta: VipMeta, cid: seq<nat>, id: nat, mix: nat)
    requires |cid| >= ENTROPY_OFF && 0 < id < env.maxBackends && mix == Mix(env, meta, cid[ENTROPY_OFF..])
    ensures DecodeCid(env, meta, cid) == id <==> cid[0] == mix / 65536 % 64 && Xor(cid[1] * 256 + cid[2], mix % 65536) == id
  {
  }

  /** The same over the parts of the ID. */
  lemma CidMatches(env: Env, meta: VipMeta, cid: seq<nat>, id: nat, mix: nat, mask: nat, masked: nat, check: nat)
    requires |cid| >= ENTROPY_OFF && IsBytes(cid) && 0 < id < env.maxBackends <= 65536
    requires mix == Mix(env, meta, cid[ENTROPY_OFF..]) && mask == mix % 65536 && masked == Xor(id, mask) && check == mix / 65536 % 64
    ensures DecodeCid(env, meta, cid) == id <==> cid == EncodeCid(env, meta, cid[ENTROPY_OFF..], id)
  {
    DecodeParts(env, meta, cid, id, mix);
    Unmask(cid[1] * 256 + cid[2], id, mask);
    TwoBytes(cid[1], cid[2], masked);
    FourParts(cid, check, masked / 256 % 256, masked % 256);
  }

  function QuicDecode(env: Env, f: seq<nat>, c: Ctx, meta: VipMeta): nat {
    var clen := CidLen(meta.flags);
    var pos := c.l4Off + UDP_HLEN + 1;
    if Frag in c.flags || FragFirst in c.flags then NO_BACKEND
    else if clen < QUIC_CID_MIN || clen > QUIC_CID_MAX then NO_BACKEND
    else if c.udpPayloadLen < 1 + clen then NO_BACKEND
    else if pos + clen > |f| then NO_BACKEND
    else DecodeCid(env, meta, f[pos..pos + clen])
  }

  function SelectByQuic(env: Env, f: seq<nat>, c: Ctx, meta: VipMeta): Choice {
    var id := QuicDecode(env, f, c, meta);
    if id == NO_BACKEND || !Up(Slot(env, id)) then NoChoice else Chosen(Slot(env, id))
  }

  function SelectBackend(env: Env, f: seq<nat>, c: Ctx, meta: VipMeta): Choice
    requires ValidEnv(env)
  {
    if Has(meta.flags, VIP_QUIC) && Quic in c.flags && SelectByQuic(env, f, c, meta).Chosen?
    then SelectByQuic(env, f, c, meta)
    else SelectByHash(env, c.tuple, meta)
  }

  // ---- the whole decision ---------------------------------------------------------------------------------

  datatype Outcome = NotParsed(rc: Ret) | VipMiss | BadVip | FragUnsupported | NoBackend | BackendDown | To(backend: Backend)

  /** Where an admitted packet of a VIP goes. */
  function Process(env: Env, f: seq<nat>, c: Ctx, meta: VipMeta): Outcome
    requires ValidEnv(env)
  {
    if meta.vipNum >= env.maxVips then BadVip
    else if (Has(meta.flags, VIP_HASH_5TUPLE) || Has(meta.flags, VIP_HASH_PORTS)) && (Frag in c.flags || FragFirst in c.flags)
    then FragUnsupported
    else Deliver(SelectBackend(env, f, c, meta))
  }

  function Deliver(choice: Choice): Outcome {
    match choice
    case NoChoice => NoBackend
    case Chosen(b) => if Up(b) then To(b) else BackendDown
  }

  /** The decision for one parsed frame, past the ACL and the rate limit. */
  function TargetOf(env: Env, f: seq<nat>, p: Parsed): Outcome
    requires ValidEnv(env)
  {
    if !p.rc.Ok? || |p.ctx.tuple.dst| != 4 then NotParsed(p.rc) else
    match SelectVip(env.kernel.vipMap, p.ctx.tuple)
    case NoVip => VipMiss
    case Vip(meta) => Process(env, f, p.ctx, meta)
  }

  lemma ParsedDst(f: seq<nat>)
    ensures |Parse(f).ctx.tuple.dst| == 4
  {
  }

  /** Where the tuple alone leads: the outcome of a whole packet that is not steered. */
  function HashTarget(env: Env, t: Tuple): Outcome
    requires ValidEnv(env) && |t.dst| == 4
  {
    match SelectVip(env.kernel.vipMap, t)
    case NoVip => VipMiss
    case Vip(meta) => if meta.vipNum >= env.maxVips then BadVip else Deliver(SelectByHash(env, t, meta))
  }

  /** The packet's connection ID decides: its VIP steers, it looks like a short header, and the
      ID names an upright backend. */
  predicate Steered(env: Env, f: seq<nat>, c: Ctx) {
    && |c.tuple.dst| == 4 && Quic in c.flags
    && match SelectVip(env.kernel.vipMap, c.tuple)
       case NoVip => false
       case Vip(meta) => Has(meta.flags, VIP_QUIC) && SelectByQuic(env, f, c, meta).Chosen?
  }

  lemma UnsteeredTarget(env: Env, f: seq<nat>, p: Parsed)
    requires ValidEnv(env) && p.rc.Ok? && |p.ctx.tuple.dst| == 4 && Frag !in p.ctx.flags && FragFirst !in p.ctx.flags
    requires !Steered(env, f, p.ctx)
    ensures TargetOf(env, f, p) == HashTarget(env, p.ctx.tuple)
  {
  }

  // ---- what the decision amounts to ---------------------------------------------------------------------------

  /** The entry a packet belongs to: the one for its own port, or failing that the one for any port. */
  ghost predicate Finds(m: map<VipKey, VipMeta>, t: Tuple, meta: VipMeta)
    requires |t.dst| == 4
  {
    var addr := if t.family == 2 then [t.dst[0], 0, 0, 0] else t.dst;
    var own, any := VipKey(t.family, addr, t.dport, t.proto), VipKey(t.family, addr, 0, t.proto);
    if own in m then meta == m[own] else any in m && meta == m[any]
  }

  /** A 17-byte hash input that holds the entropy, and zeroes behind it. */
  ghost predicate Pads(input: seq<nat>, entropy: seq<nat>) {
    |input| == 17 && entropy <= input && forall i :: |entropy| <= i < 17 ==> input[i] == 0
  }

  /** The check bits are six bits of the hash, the top two bits are clear, and the id is masked
      with the low sixteen. */
  predicate Stamped(cid: seq<nat>, id: nat, mix: nat)
    requires |cid| >= 3
  {
    cid[0] == mix / 65536 % 64 && cid[1] * 256 + cid[2] == Xor(id, mix % 65536)
  }

  /** A connection ID as the backend `id` issues it. */
  ghost predicate Issued(env: Env, meta: VipMeta, cid: seq<nat>, id: nat) {
    |cid| >= 3 && exists input :: Pads(input, cid[3..]) && Stamped(cid, id, env.hash(QuicInput(input), meta.hashKey))
  }

  /** An unfragmented short-header packet of a steering VIP, whose declared payload covers a
      connection ID of the VIP's length that `id` issued. */
  ghost predicate Names(env: Env, f: seq<nat>, c: Ctx, meta: VipMeta, id: nat) {
    var n := meta.flags / 256 % 32;
    && meta.flags / 8 % 2 == 1 && 7 <= n <= 20
    && Quic in c.flags && Frag !in c.flags && FragFirst !in c.flags && n < c.udpPayloadLen
    && 0 < id < env.maxBackends && c.l4Off + 9 + n <= |f| && Issued(env, meta, f[c.l4Off + 9..c.l4Off + 9 + n], id)
  }

  predicate Upright(env: Env, id: nat) { id in env.kernel.backends && env.kernel.backends[id].flags / 64 % 2 == 1 }

  /** What the forwarding table holds for a packet, in the VIP's block and at the row its hash mode asks for. */
  ghost predicate Tabled(env: Env, t: Tuple, meta: VipMeta, id: nat)
    requires ValidEnv(env)
  {
    var input := if meta.flags / 4 % 2 == 1 then WholeTuple(t)
                 else if meta.flags / 16 % 2 == 1 then PortPair(t.sport, t.dport) else Source(t.src);
    var cell := meta.vipNum * env.tableSize + env.hash(input, meta.hashKey) % env.tableSize;
    id == if cell < |env.kernel.fwd| then env.kernel.fwd[cell] else 0
  }

  /** The backend a packet is for: the upright one its connection ID names, or else the one in its row. */
  ghost predicate Elects(env: Env, f: seq<nat>, c: Ctx, meta: VipMeta, id: nat)
    requires ValidEnv(env)
  {
    if exists named: nat :: Names(env, f, c, meta, named) && Upright(env, named)
    then Names(env, f, c, meta, id) && Upright(env, id)
    else Tabled(env, c.tuple, meta, id)
  }

  ghost predicate Refused(meta: VipMeta, c: Ctx) {
    (meta.flags / 4 % 2 == 1 || meta.flags / 16 % 2 == 1) && (Frag in c.flags || FragFirst in c.flags)
  }

  /** What becomes of a packet of the entry `meta`. */
  ghost predicate Served(env: Env, f: seq<nat>, c: Ctx, meta: VipMeta, out: Outcome)
    requires ValidEnv(env)
  {
    if meta.vipNum >= env.maxVips then out == BadVip
    else if Refused(meta, c) then out == FragUnsupported
    else exists id: nat :: Elects(env, f, c, meta, id) && Yields(env, id, out)
  }

  /** No backend, a backend that is down, or delivery. */
  predicate Yields(env: Env, id: nat, out: Outcome) {
    out == if id == 0 || id >= env.maxBackends then NoBackend
           else if Upright(env, id) then To(env.kernel.backends[id]) else BackendDown
  }

  lemma PadsExactly(input: seq<nat>, entropy: seq<nat>)
    requires |entropy| <= 17
    ensures Pads(input, entropy) <==> input == Padded(entropy)
  {
  }

  lemma DecodeStamp(env: Env, meta: VipMeta, cid: seq<nat>, id: nat)
    requires 3 <= |cid| <= 20 && 0 < id < env.maxBackends
    ensures DecodeCid(env, meta, cid) == id <==> Issued(env, meta, cid, id)
  {
    var input := Padded(cid[3..]);
    var mix := env.hash(QuicInput(input), meta.hashKey);
    DecodeParts(env, meta, cid, id, mix);
    XorUndoes(cid[1] * 256 + cid[2], mix % 65536);
    XorUndoes(id, mix % 65536);
    PadsExactly(input, cid[3..]);
    if Issued(env, meta, cid, id) {
      var other :| Pads(other, cid[3..]) && Stamped(cid, id, env.hash(QuicInput(other), meta.hashKey));
      PadsExactly(other, cid[3..]);
    }
  }

  /** The packet has a connection ID to read, of `n` bytes at `pos`. */
  ghost predicate HoldsCid(f: seq<nat>, c: Ctx, pos: nat, n: nat) {
    && 7 <= n <= 20 && Frag !in c.flags && FragFirst !in c.flags && n < c.udpPayloadLen && pos + n <= |f|
  }

  lemma QuicDecodeReads(env: Env, f: seq<nat>, c: Ctx, meta: VipMeta, pos: nat, n: nat)
    requires n == CidLen(meta.flags) && pos == c.l4Off + 9
    ensures HoldsCid(f, c, pos, n) ==> QuicDecode(env, f, c, meta) == DecodeCid(env, meta, f[pos..pos + n])
    ensures !HoldsCid(f, c, pos, n) ==> QuicDecode(env, f, c, meta) == NO_BACKEND
  {
  }

  lemma NamesReads(env: Env, f: seq<nat>, c: Ctx, meta: VipMeta, id: nat, pos: nat, n: nat)
    requires n == CidLen(meta.flags) && pos == c.l4Off + 9
    ensures Names(env, f, c, meta, id) <==>
            && Has(meta.flags, VIP_QUIC) && Quic in c.flags && HoldsCid(f, c, pos, n)
            && 0 < id < env.maxBackends && Issued(env, meta, f[pos..pos + n], id)
  {
  }

  lemma DecodedInRange(env: Env, meta: VipMeta, cid: seq<nat>)
    requires 3 <= |cid|
    ensures DecodeCid(env, meta, cid) != 0 ==> DecodeCid(env, meta, cid) < env.maxBackends
  {
  }

  lemma NamesOnly(env: Env, f: seq<nat>, c: Ctx, meta: VipMeta, id: nat)
    ensures Names(env, f, c, meta, id) <==> Has(meta.flags, VIP_QUIC) && Quic in c.flags && id != 0 && QuicDecode(env, f, c, meta) == id
  {
    var n, pos := CidLen(meta.flags), c.l4Off + 9;
    NamesReads(env, f, c, meta, id, pos, n);
    QuicDecodeReads(env, f, c, meta, pos, n);
    if HoldsCid(f, c, pos, n) {
      DecodedInRange(env, meta, f[pos..pos + n]);
      if 0 < id < env.maxBackends {
        DecodeStamp(env, meta, f[pos..pos + n], id);
      }
    }
  }

  lemma TabledExactly(env: Env, t: Tuple, meta: VipMeta, id: nat)
    requires ValidEnv(env)
    ensures Tabled(env, t, meta, id) <==> id == Row(env.kernel, env.tableSize, meta.vipNum, HashRow(env, t, meta))
  {
  }

  /** A packet steered by its connection ID. */
  lemma SteeredChoice(env: Env, f: seq<nat>, c: Ctx, meta: VipMeta, id: nat)
    requires ValidEnv(env) && Names(env, f, c, meta, id) && Upright(env, id)
    ensures forall other: nat :: Elects(env, f, c, meta, other) <==> other == id
    ensures 0 < id < env.maxBackends && SelectBackend(env, f, c, meta) == Chosen(env.kernel.backends[id])
  {
    forall other: nat ensures Elects(env, f, c, meta, other) <==> other == id {
      NamesOnly(env, f, c, meta, other);
      NamesOnly(env, f, c, meta, id);
    }
    NamesOnly(env, f, c, meta, id);
  }

  /** And any other packet. */
  lemma TabledChoice(env: Env, f: seq<nat>, c: Ctx, meta: VipMeta, id: nat)
    requires ValidEnv(env) && meta.vipNum < env.maxVips && id == Row(env.kernel, env.tableSize, meta.vipNum, HashRow(env, c.tuple, meta))
    requires !exists named: nat :: Names(env, f, c, meta, named) && Upright(env, named)
    ensures forall other: nat :: Elects(env, f, c, meta, other) <==> other == id
    ensures SelectBackend(env, f, c, meta) == if id == 0 || id >= env.maxBackends then NoChoice else Chosen(Slot(env, id))
  {
    forall other: nat ensures Elects(env, f, c, meta, other) <==> other == id {
      TabledExactly(env, c.tuple, meta, other);
    }
    var named := QuicDecode(env, f, c, meta);
    NamesOnly(env, f, c, meta, named);
    assert SelectByHash(env, c.tuple, meta) == if id == 0 || id >= env.maxBackends then NoChoice else Chosen(Slot(env, id));
  }

  /** The decision for a frame, whichever it is: its parse, its entry, and what that entry makes
      of it. In particular it goes to a backend exactly when that one is upright and named by the
      connection ID or, when no upright one is, held by the row. */
  lemma TargetExactly(env: Env, f: seq<nat>, p: Parsed, out: Outcome)
    requires ValidEnv(env) && |p.ctx.tuple.dst| == 4
    ensures TargetOf(env, f, p) == out <==>
            if p.rc != Ok then out == NotParsed(p.rc)
            else if exists meta :: Finds(env.kernel.vipMap, p.ctx.tuple, meta)
            then exists meta :: Finds(env.kernel.vipMap, p.ctx.tuple, meta) && Served(env, f, p.ctx, meta, out)
            else out == VipMiss
  {
    match SelectVip(env.kernel.vipMap, p.ctx.tuple)
    case NoVip =>
    case Vip(meta) =>
      assert Finds(env.kernel.vipMap, p.ctx.tuple, meta);
      ServedExactly(env, f, p.ctx, meta, out);
  }

  lemma DeliverYields(env: Env, id: nat, choice: Choice)
    requires choice == if id == 0 || id >= env.maxBackends then NoChoice else Chosen(Slot(env, id))
    ensures forall out :: Yields(env, id, out) <==> out == Deliver(choice)
  {
  }

  lemma ServedExactly(env: Env, f: seq<nat>, c: Ctx, meta: VipMeta, out: Outcome)
    requires ValidEnv(env)
    ensures Process(env, f, c, meta) == out <==> Served(env, f, c, meta, out)
  {
    if meta.vipNum < env.maxVips && !Refused(meta, c) {
      var id := Row(env.kernel, env.tableSize, meta.vipNum, HashRow(env, c.tuple, meta));
      if named: nat :| Names(env, f, c, meta, named) && Upright(env, named) {
        id := named;
        SteeredChoice(env, f, c, meta, id);
      } else {
        TabledChoice(env, f, c, meta, id);
      }
      DeliverYields(env, id, SelectBackend(env, f, c, meta));
      ElectedOnly(env, f, c, meta, id, out);
    }
  }

  lemma ElectedOnly(env: Env, f: seq<nat>, c: Ctx, meta: VipMeta, id: nat, out: Outcome)
    requires ValidEnv(env) && meta.vipNum < env.maxVips && !Refused(meta, c)
    requires forall other: nat :: Elects(env, f, c, meta, other) <==> other == id
    ensures Served(env, f, c, meta, out) <==> Yields(env, id, out)
  {
    assert Elects(env, f, c, meta, id);
  }

  /** A connection ID made by the encoder is an issued one. */
  lemma EncoderIssues(env: Env, meta: VipMeta, entropy: seq<nat>, id: nat)
    requires |entropy| <= 17 && id < 65536
    ensures Issued(env, meta, EncodeCid(env, meta, entropy, id), id)
  {
    var cid := EncodeCid(env, meta, entropy, id);
    assert cid[3..] == entropy;
    PadsExactly(Padded(entropy), entropy);
    XorOf16Bits(id, Mix(env, meta, entropy) % 65536);
    assert Stamped(cid, id, env.hash(QuicInput(Padded(entropy)), meta.hashKey));
  }

  /** A packet that carries an ID an upright backend issued goes to that backend, whatever the
      client's address and port are now and whatever the table says. */
  lemma QuicFollowsConnection(env: Env, f: seq<nat>, p: Parsed, meta: VipMeta, id: nat)
    requires ValidEnv(env) && p.rc.Ok? && |p.ctx.tuple.dst| == 4
    requires Finds(env.kernel.vipMap, p.ctx.tuple, meta) && meta.vipNum < env.maxVips
    requires Names(env, f, p.ctx, meta, id) && Upright(env, id)
    ensures TargetOf(env, f, p) == To(env.kernel.backends[id])
  {
    assert Elects(env, f, p.ctx, meta, id);
    TargetExactly(env, f, p, To(env.kernel.backends[id]));
  }

  lemma ErrorFlags(e: seq<nat>, q: nat)
    requires QuotesAt(e, q) && Parse(e).rc.Ok? && FragFirst !in Parse(e).ctx.flags
    ensures Parse(e).ctx.flags == {Icmp}
  {
  }

  /** Under every hash mode, and whatever the maps hold, an ICMP error about a flow finds the
      same VIP and the same row as the flow. It goes where the flow's tuple leads, and that is
      where the flow goes unless its packet is steered by its connection ID. */
  lemma IcmpFollowsFlow(env: Env, f: seq<nat>, reply: seq<nat>, e: seq<nat>, q: nat)
    requires ValidEnv(env)
    requires Parse(f).rc.Ok? && Parse(f).ctx.flags * {Icmp, Frag, FragFirst} == {} && IsReply(f, reply)
    requires QuotesAt(e, q) && FamilyOf(e) == FamilyOf(f) && Parse(e).rc.Ok? && FragFirst !in Parse(e).ctx.flags
    requires e[q..] <= reply
    ensures Parse(e).ctx.tuple == Parse(f).ctx.tuple
    ensures forall meta :: HashRow(env, Parse(e).ctx.tuple, meta) == HashRow(env, Parse(f).ctx.tuple, meta)
    ensures |Parse(f).ctx.tuple.dst| == 4 && TargetOf(env, e, Parse(e)) == HashTarget(env, Parse(f).ctx.tuple)
    ensures !Steered(env, f, Parse(f).ctx) ==> TargetOf(env, e, Parse(e)) == TargetOf(env, f, Parse(f))
  {
    IcmpAffinity(f, reply, e, q);
    ErrorFlags(e, q);
    ParsedDst(f);
    UnsteeredTarget(env, e, Parse(e));
    if !Steered(env, f, Parse(f).ctx) {
      UnsteeredTarget(env, f, Parse(f));
    }
  }

  /** Head and tail of a datagram find the same VIP entry exactly when no entry names the
      head's port, or the any-port entry says the same. */
  lemma FragmentsShareVip(m: map<VipKey, VipMeta>, h: seq<nat>, t: seq<nat>)
    requires SameDatagram(h, t) && Parse(h).rc.Ok? && Parse(t).rc.Ok?
    ensures |Parse(h).ctx.tuple.dst| == 4 && |Parse(t).ctx.tuple.dst| == 4
    ensures var key := VipKeyOf(Parse(h).ctx.tuple);
            SelectVip(m, Parse(t).ctx.tuple) == SelectVip(m, Parse(h).ctx.tuple) <==>
            key !in m || Find(m, key) == Find(m, key.(port := 0))
  {
    ParsedDst(h);
    ParsedDst(t);
    HalvesAgree(h, t);
  }

  /** A datagram's fragments are never split: on a VIP entry they share, either both are
      refused or both go to one backend, even when the head looks like a QUIC packet. */
  lemma FragmentsStayTogether(env: Env, h: seq<nat>, t: seq<nat>, meta: VipMeta)
    requires ValidEnv(env) && SameDatagram(h, t) && Parse(h).rc.Ok? && Parse(t).rc.Ok?
    ensures Process(env, t, Parse(t).ctx, meta) == Process(env, h, Parse(h).ctx, meta)
  {
    HalvesAgree(h, t);
  }

  /** So they end alike whenever the head's own port has no entry, or the one for any port. */
  lemma FragmentsOneTarget(env: Env, h: seq<nat>, t: seq<nat>)
    requires ValidEnv(env) && SameDatagram(h, t) && Parse(h).rc.Ok? && Parse(t).rc.Ok?
    requires |Parse(h).ctx.tuple.dst| == 4
    requires var m, key := env.kernel.vipMap, VipKeyOf(Parse(h).ctx.tuple);
             key !in m || (key.(port := 0) in m && m[key] == m[key.(port := 0)])
    ensures TargetOf(env, t, Parse(t)) == TargetOf(env, h, Parse(h))
  {
    FragmentsShareVip(env.kernel.vipMap, h, t);
    match SelectVip(env.kernel.vipMap, Parse(h).ctx.tuple)
    case NoVip =>
    case Vip(meta) => FragmentsStayTogether(env, h, t, meta);
  }
}
