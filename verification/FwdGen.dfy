/** Rendezvous table generation (fwd_gen.c).

    SipHash is an arbitrary keyed function and the weighted score an arbitrary real-valued
    function of digest and weight; the table size is a parameter. */
module FwdGen {
  import opened Types
  import opened Counting

  /** A resolved member: what the score hashes, and what a row stores. */
  datatype Member = Member(id: nat, weight: nat, addr: seq<nat>, vni: nat, mac: seq<nat>)

  datatype Scorer = Scorer(hash: (seq<nat>, seq<nat>) -> nat, score: (nat, nat) -> real)

  // ---- the hash inputs -------------------------------------------------------------

  function LeBytes(x: nat, n: nat): (bytes: seq<nat>)
    ensures |bytes| == n
  {
    if n == 0 then [] else [x % 256] + LeBytes(x / 256, n - 1)
  }

  /** The block hashed for a row: its number, padded. */
  function RowInput(row: nat): seq<nat> { LeBytes(row, 4) + [0, 0, 0, 0] }

  /** The block hashed for a member on a row: the row's seed, address, network and inner MAC. */
  function MemberInput(rowSeed: nat, m: Member): seq<nat> { LeBytes(rowSeed, 8) + m.addr + LeBytes(m.vni, 3) + [0] + m.mac + [0, 0] }

  function RowSeed(g: Scorer, seed: seq<nat>, row: nat): nat {
    g.hash(RowInput(row), seed)
  }

  function Digest(g: Scorer, seed: seq<nat>, rowSeed: nat, m: Member): nat {
    g.hash(MemberInput(rowSeed, m), seed)
  }

  // ---- who should win a row ----------------------------------------------------------

  /** The two scoring paths: bare digests when all weights are equal, weighted scores otherwise. */
  ghost predicate EqualWeights(members: seq<Member>) {
    forall m, n :: m in members && n in members ==> m.weight == n.weight
  }

  function Rank(g: Scorer, seed: seq<nat>, row: nat, equal: bool, m: Member): real {
    var digest := Digest(g, seed, RowSeed(g, seed, row), m);
    if equal then digest as real else g.score(digest, m.weight)
  }

  /** `m` scores highest on this row, and has the lowest id among those that do. */
  ghost predicate Best(g: Scorer, seed: seq<nat>, row: nat, equal: bool, members: seq<Member>, m: Member) {
    && m in members
    && forall n :: n in members ==>
         var rm, rn := Rank(g, seed, row, equal, m), Rank(g, seed, row, equal, n);
         rn < rm || (rn == rm && m.id <= n.id)
  }

  /** The id a row must hold. Nothing here depends on the order of the members. */
  ghost predicate Elected(g: Scorer, seed: seq<nat>, row: nat, equal: bool, members: seq<Member>, id: nat) {
    if members == [] then id == NO_BACKEND else exists m :: Best(g, seed, row, equal, members, m) && m.id == id
  }

  ghost predicate IsBlock(g: Scorer, seed: seq<nat>, tableSize: nat, members: seq<Member>, block: seq<nat>) {
    && |block| == tableSize
    && forall row :: 0 <= row < tableSize ==> Elected(g, seed, row, EqualWeights(members), members, block[row])
  }

  // ---- the generator -----------------------------------------------------------------

  method PickRowEqualWeight(g: Scorer, seed: seq<nat>, row: nat, members: seq<Member>) returns (bestId: nat)
    ensures Elected(g, seed, row, true, members, bestId)
  {
    bestId := NO_BACKEND;
    var bestDigest := 0;
    var rowSeed := RowSeed(g, seed, row);
    ghost var best: int := -1;
    for i := 0 to |members|
      invariant i == 0 ==> bestId == NO_BACKEND
      invariant i > 0 ==> 0 <= best < i && members[best].id == bestId && bestDigest == Digest(g, seed, rowSeed, members[best])
      invariant i > 0 ==> Best(g, seed, row, true, members[..i], members[best])
    {
      var digest := Digest(g, seed, rowSeed, members[i]);
      assert members[..i + 1] == members[..i] + [members[i]];
      if i == 0 || digest > bestDigest || (digest == bestDigest && members[i].id < bestId) {
        bestDigest, bestId := digest, members[i].id;
        best := i;
      }
    }
    assert members[..|members|] == members;
  }

  method PickRowWeighted(g: Scorer, seed: seq<nat>, row: nat, members: seq<Member>) returns (bestId: nat)
    ensures Elected(g, seed, row, false, members, bestId)
  {
    bestId := NO_BACKEND;
    var bestScore := 0.0;
    var rowSeed := RowSeed(g, seed, row);
    ghost var best: int := -1;
    for i := 0 to |members|
      invariant i == 0 ==> bestId == NO_BACKEND
      invariant i > 0 ==> 0 <= best < i && members[best].id == bestId && bestScore == Rank(g, seed, row, false, members[best])
      invariant i > 0 ==> Best(g, seed, row, false, members[..i], members[best])
    {
      var score := g.score(Digest(g, seed, rowSeed, members[i]), members[i].weight);
      assert members[..i + 1] == members[..i] + [members[i]];
      if i == 0 || score > bestScore || (score == bestScore && members[i].id < bestId) {
        bestScore, bestId := score, members[i].id;
        best := i;
      }
    }
    assert members[..|members|] == members;
  }

  method FwdGenBlock(g: Scorer, seed: seq<nat>, members: seq<Member>, out: array<nat>)
    modifies out
    ensures IsBlock(g, seed, out.Length, members, out[..])
  {
    if |members| == 0 {
      for row := 0 to out.Length
        invariant forall r :: 0 <= r < row ==> out[r] == NO_BACKEND
      {
        out[row] := NO_BACKEND;
      }
      return;
    }
    var equalWeight := true;
    for i := 1 to |members|
      invariant equalWeight
      invariant forall j :: 0 <= j < i ==> members[j].weight == members[0].weight
    {
      if members[i].weight != members[0].weight {
        equalWeight := false;
        break;
      }
    }
    assert equalWeight == EqualWeights(members) by {
      if !equalWeight {
        assert members[0] in members;
      }
    }
    for row := 0 to out.Length
      invariant forall r :: 0 <= r < row ==> Elected(g, seed, r, EqualWeights(members), members, out[r])
    {
      if equalWeight {
        out[row] := PickRowEqualWeight(g, seed, row, members);
      } else {
        out[row] := PickRowWeighted(g, seed, row, members);
      }
    }
  }

  // ---- what the tables promise ----------------------------------------------------------

  ghost predicate SameMembers(members: seq<Member>, others: seq<Member>) {
    forall m :: m in members <==> m in others
  }

  lemma ElectedUnique(g: Scorer, seed: seq<nat>, row: nat, equal: bool, members: seq<Member>, others: seq<Member>, id: nat, id': nat)
    requires SameMembers(members, others)
    requires Elected(g, seed, row, equal, members, id) && Elected(g, seed, row, equal, others, id')
    ensures id == id'
  {
    if members == [] {
      FirstIsElement(others);
    } else {
      var m :| Best(g, seed, row, equal, members, m) && m.id == id;
      assert m in others;
      var n :| Best(g, seed, row, equal, others, n) && n.id == id';
    }
  }

  /** Every instance agrees: the same member set, listed in any order, gives the same block. */
  lemma OrderIndependent(g: Scorer, seed: seq<nat>, tableSize: nat, members: seq<Member>, others: seq<Member>,
                         block: seq<nat>, block': seq<nat>)
    requires SameMembers(members, others)
    requires IsBlock(g, seed, tableSize, members, block) && IsBlock(g, seed, tableSize, others, block')
    ensures block == block'
  {
    assert EqualWeights(members) == EqualWeights(others);
    forall row | 0 <= row < tableSize ensures block[row] == block'[row] {
      ElectedUnique(g, seed, row, EqualWeights(members), members, others, block[row], block'[row]);
    }
  }

  /** Minimal disruption, in both directions: between a member set and the same set with one
      member `x` more, on the same scoring path, a row differs only where `x` holds it. Adding
      `x` moves rows only to `x`; removing `x` moves only the rows it held. */
  lemma MinimalDisruption(g: Scorer, seed: seq<nat>, tableSize: nat, members: seq<Member>, more: seq<Member>, x: Member,
                          block: seq<nat>, block': seq<nat>)
    requires forall m :: m in more <==> m in members || m == x
    requires EqualWeights(members) == EqualWeights(more)
    requires IsBlock(g, seed, tableSize, members, block) && IsBlock(g, seed, tableSize, more, block')
    ensures forall row :: 0 <= row < tableSize && block'[row] != block[row] ==> block'[row] == x.id
  {
    var equal := EqualWeights(members);
    assert x in more;
    forall row | 0 <= row < tableSize && block'[row] != x.id ensures block'[row] == block[row] {
      assert Elected(g, seed, row, equal, more, block'[row]);
      var w :| Best(g, seed, row, equal, more, w) && w.id == block'[row];
      assert Best(g, seed, row, equal, members, w);
      ElectedUnique(g, seed, row, equal, members, members, block[row], w.id);
    }
  }

  /** A row names a member; only a VIP without members holds the sentinel. */
  lemma RowsNameMembers(g: Scorer, seed: seq<nat>, tableSize: nat, members: seq<Member>, block: seq<nat>, row: nat)
    requires IsBlock(g, seed, tableSize, members, block) && row < tableSize
    ensures if members == [] then block[row] == NO_BACKEND else exists m :: m in members && m.id == block[row]
  {
    assert Elected(g, seed, row, EqualWeights(members), members, block[row]);
  }

  /** Every member set has a winner for every row, so its block exists and is unique. */
  ghost function BestOf(g: Scorer, seed: seq<nat>, row: nat, equal: bool, members: seq<Member>): (best: Member)
    requires members != []
    ensures Best(g, seed, row, equal, members, best)
  {
    var n := |members| - 1;
    assert members == members[..n] + [members[n]];
    if n == 0 then members[0]
    else
      var m := BestOf(g, seed, row, equal, members[..n]);
      var rm, rn := Rank(g, seed, row, equal, m), Rank(g, seed, row, equal, members[n]);
      if rn < rm || (rn == rm && m.id <= members[n].id) then m else members[n]
  }

  ghost function Block(g: Scorer, seed: seq<nat>, tableSize: nat, members: seq<Member>): (block: seq<nat>)
    ensures IsBlock(g, seed, tableSize, members, block)
  {
    seq(tableSize, row requires 0 <= row < tableSize =>
      if members == [] then NO_BACKEND else BestOf(g, seed, row, EqualWeights(members), members).id)
  }

  // ---- rows and members count ------------------------------------------------------------

  ghost function Pow256(n: nat): nat { if n == 0 then 1 else 256 * Pow256(n - 1) }

  lemma {:induction false} LeBytesInjective(x: nat, y: nat, n: nat)
    requires x < Pow256(n) && y < Pow256(n) && LeBytes(x, n) == LeBytes(y, n)
    ensures x == y
  {
    if n > 0 {
      assert LeBytes(x, n)[0] == x % 256 && LeBytes(y, n)[0] == y % 256;
      assert LeBytes(x, n)[1..] == LeBytes(x / 256, n - 1) && LeBytes(y, n)[1..] == LeBytes(y / 256, n - 1);
      LeBytesInjective(x / 256, y / 256, n - 1);
    }
  }

  /** What of a member enters the hash, within its width. */
  ghost predicate ValidMember(m: Member) {
    |m.addr| == 4 && |m.mac| == 6 && m.vni < 0x100_0000
  }

  ghost predicate SameIdentity(m: Member, n: Member) {
    m.addr == n.addr && m.vni == n.vni && m.mac == n.mac
  }

  lemma RowInputInjective(row: nat, other: nat)
    requires row < 0x1_0000_0000 && other < 0x1_0000_0000 && RowInput(row) == RowInput(other)
    ensures row == other
  {
    assert RowInput(row)[..4] == LeBytes(row, 4) && RowInput(other)[..4] == LeBytes(other, 4);
    assert Pow256(4) == 0x1_0000_0000;
    LeBytesInjective(row, other, 4);
  }

  lemma MemberInputInjective(rowSeed: nat, m: Member, other: nat, n: Member)
    requires rowSeed < 0x1_0000_0000_0000_0000 && other < 0x1_0000_0000_0000_0000 && ValidMember(m) && ValidMember(n)
    requires MemberInput(rowSeed, m) == MemberInput(other, n)
    ensures rowSeed == other && SameIdentity(m, n)
  {
    var a, b := MemberInput(rowSeed, m), MemberInput(other, n);
    assert a[..8] == LeBytes(rowSeed, 8) && b[..8] == LeBytes(other, 8);
    assert a[8..12] == m.addr && b[8..12] == n.addr;
    assert a[12..15] == LeBytes(m.vni, 3) && b[12..15] == LeBytes(n.vni, 3);
    assert a[16..22] == m.mac && b[16..22] == n.mac;
    assert Pow256(3) == 0x100_0000;
    assert Pow256(4) == 0x1_0000_0000;
    assert Pow256(8) == 0x1_0000_0000_0000_0000;
    LeBytesInjective(rowSeed, other, 8);
    LeBytesInjective(m.vni, n.vni, 3);
  }

  /** Two rows, what they hash to, and the member each of them favours. */
  datatype Choice = Choice(row: nat, x: nat, m: Member, row': nat, x': nat, m': Member)

  ghost predicate ValidChoice(c: Choice) {
    && c.row < 0x1_0000_0000 && c.row' < 0x1_0000_0000 && c.row != c.row'
    && c.x < 0x1_0000_0000_0000_0000 && c.x' < 0x1_0000_0000_0000_0000 && c.x != c.x'
    && ValidMember(c.m) && ValidMember(c.m')
  }

  /** A hash that singles out one member on one row and one on another. */
  ghost function Favouring(c: Choice): Scorer {
    Scorer((bytes: seq<nat>, key: seq<nat>) =>
             if bytes == RowInput(c.row) then c.x else if bytes == RowInput(c.row') then c.x'
             else if bytes == MemberInput(c.x, c.m) || bytes == MemberInput(c.x', c.m') then 1 else 0,
           (digest: nat, weight: nat) => digest as real)
  }

  lemma FavouredRows(c: Choice, seed: seq<nat>)
    requires ValidChoice(c)
    ensures RowSeed(Favouring(c), seed, c.row) == c.x && RowSeed(Favouring(c), seed, c.row') == c.x'
  {
    if RowInput(c.row) == RowInput(c.row') {
      RowInputInjective(c.row, c.row');
    }
  }

  lemma FavouredDigest(c: Choice, n: Member, seed: seq<nat>)
    requires ValidChoice(c) && ValidMember(n)
    ensures Digest(Favouring(c), seed, c.x, n) == if SameIdentity(n, c.m) then 1 else 0
    ensures Digest(Favouring(c), seed, c.x', n) == if SameIdentity(n, c.m') then 1 else 0
  {
    OnlyOwnInput(c.x, n, c.x, c.m);
    OnlyOwnInput(c.x, n, c.x', c.m');
    OnlyOwnInput(c.x', n, c.x, c.m);
    OnlyOwnInput(c.x', n, c.x', c.m');
  }

  lemma OnlyOwnInput(x: nat, n: Member, y: nat, m: Member)
    requires x < 0x1_0000_0000_0000_0000 && y < 0x1_0000_0000_0000_0000 && ValidMember(m) && ValidMember(n)
    ensures MemberInput(x, n) == MemberInput(y, m) <==> x == y && SameIdentity(n, m)
    ensures |MemberInput(x, n)| == 24
  {
    if MemberInput(x, n) == MemberInput(y, m) {
      MemberInputInjective(x, n, y, m);
    }
  }

  lemma FavouredWins(g: Scorer, seed: seq<nat>, row: nat, equal: bool, members: seq<Member>, m: Member)
    requires m in members && (forall d, w :: g.score(d, w) == d as real)
    requires forall n :: n in members ==> Digest(g, seed, RowSeed(g, seed, row), n) == if n == m then 1 else 0
    ensures forall id :: Elected(g, seed, row, equal, members, id) ==> id == m.id
  {
    assert Best(g, seed, row, equal, members, m) by {
      forall n | n in members && n != m ensures Rank(g, seed, row, equal, n) < Rank(g, seed, row, equal, m) {
      }
    }
    forall id | Elected(g, seed, row, equal, members, id) ensures id == m.id {
      ElectedUnique(g, seed, row, equal, members, members, id, m.id);
    }
  }

  /** The row and every part of a member's identity enter the hash: for any two different rows of a
      table, whatever different 64-bit values they hash to, and any members, one chosen for each
      row, some hash gives a table on which each of the two rows holds the member chosen for it. */
  lemma EveryChoiceIsSomeTable(seed: seq<nat>, tableSize: nat, members: seq<Member>, c: Choice) returns (g: Scorer, block: seq<nat>)
    requires ValidChoice(c) && c.row < tableSize && c.row' < tableSize && c.m in members && c.m' in members
    requires forall n :: n in members ==> ValidMember(n)
    requires forall n, k :: n in members && k in members && SameIdentity(n, k) ==> n == k
    ensures IsBlock(g, seed, tableSize, members, block) && block[c.row] == c.m.id && block[c.row'] == c.m'.id
    ensures g.hash(RowInput(c.row), seed) == c.x && g.hash(RowInput(c.row'), seed) == c.x'
  {
    g := Favouring(c);
    block := Block(g, seed, tableSize, members);
    FavouredRows(c, seed);
    forall n | n in members
      ensures Digest(g, seed, c.x, n) == if n == c.m then 1 else 0
      ensures Digest(g, seed, c.x', n) == if n == c.m' then 1 else 0
    {
      FavouredDigest(c, n, seed);
    }
    FavouredWins(g, seed, c.row, EqualWeights(members), members, c.m);
    FavouredWins(g, seed, c.row', EqualWeights(members), members, c.m');
  }

  /** A score that looks at nothing but the weight. */
  ghost function ByWeight(hash: (seq<nat>, seq<nat>) -> nat): Scorer {
    Scorer(hash, (digest: nat, weight: nat) => weight as real)
  }

  /** The weight enters the weighted score: under some score, whatever the hash, a table of members
      of different weights holds the heaviest member, the one with the lowest id, on every row. */
  lemma WeightDecides(hash: (seq<nat>, seq<nat>) -> nat, seed: seq<nat>, tableSize: nat, members: seq<Member>, m: Member)
    requires m in members && !EqualWeights(members)
    requires forall n :: n in members ==> n.weight < m.weight || (n.weight == m.weight && m.id <= n.id)
    ensures forall block, row :: IsBlock(ByWeight(hash), seed, tableSize, members, block) && 0 <= row < tableSize ==> block[row] == m.id
  {
    var g := ByWeight(hash);
    forall block, row | IsBlock(g, seed, tableSize, members, block) && 0 <= row < tableSize ensures block[row] == m.id {
      assert Best(g, seed, row, false, members, m);
      ElectedUnique(g, seed, row, false, members, members, block[row], m.id);
    }
  }

  // ---- the two scoring paths -------------------------------------------------------------

  /** How the weighted score treats digests, at any weight a configuration may give: the low 11
      bits do not matter, the rest count upwards. */
  ghost predicate DropsLowBits(g: Scorer) {
    forall d: nat, d': nat, w: nat | w > 0 ::
      && (d / 2048 == d' / 2048 ==> g.score(d, w) == g.score(d', w))
      && (d / 2048 < d' / 2048 ==> g.score(d, w) < g.score(d', w))
  }

  function Bucket(g: Scorer, seed: seq<nat>, row: nat, m: Member): nat {
    Digest(g, seed, RowSeed(g, seed, row), m) / 2048
  }

  /** The member has the highest digest of the row. */
  ghost predicate TopDigest(g: Scorer, seed: seq<nat>, row: nat, members: seq<Member>, m: Member) {
    m in members && forall n :: n in members ==> Digest(g, seed, RowSeed(g, seed, row), n) <= Digest(g, seed, RowSeed(g, seed, row), m)
  }

  /** No member whose digest is the same above the low 11 bits has a lower id. */
  ghost predicate LowestInBucket(g: Scorer, seed: seq<nat>, row: nat, members: seq<Member>, m: Member) {
    forall n :: n in members && Bucket(g, seed, row, n) == Bucket(g, seed, row, m) ==> m.id <= n.id
  }

  /** The equal-weight path is presented as the weighted one without the logarithm. They elect
      the same backend exactly when some member with the highest digest also has the lowest id
      among the members whose digests agree with it above the low 11 bits. */
  lemma PathsAgreeExactly(g: Scorer, seed: seq<nat>, row: nat, members: seq<Member>, equalId: nat, weightedId: nat)
    requires DropsLowBits(g) && EqualWeights(members) && members != [] && forall m :: m in members ==> m.weight > 0
    requires Elected(g, seed, row, true, members, equalId) && Elected(g, seed, row, false, members, weightedId)
    ensures equalId == weightedId <==> exists m :: TopDigest(g, seed, row, members, m) && LowestInBucket(g, seed, row, members, m)
  {
    var e :| Best(g, seed, row, true, members, e) && e.id == equalId;
    var w :| Best(g, seed, row, false, members, w) && w.id == weightedId;
    BestIsTop(g, seed, row, members, e);
    WeightedStaysInBucket(g, seed, row, members, e, w);
    if equalId == weightedId {
      assert TopDigest(g, seed, row, members, e) && LowestInBucket(g, seed, row, members, e);
    }
    if m :| TopDigest(g, seed, row, members, m) && LowestInBucket(g, seed, row, members, m) {
      assert Digest(g, seed, RowSeed(g, seed, row), m) == Digest(g, seed, RowSeed(g, seed, row), e);
      assert Rank(g, seed, row, true, m) == Rank(g, seed, row, true, e);
      assert e.id <= m.id <= e.id;
    }
  }

  lemma BestIsTop(g: Scorer, seed: seq<nat>, row: nat, members: seq<Member>, e: Member)
    requires Best(g, seed, row, true, members, e)
    ensures TopDigest(g, seed, row, members, e)
  {
    forall n | n in members ensures Digest(g, seed, RowSeed(g, seed, row), n) <= Digest(g, seed, RowSeed(g, seed, row), e) {
      assert Rank(g, seed, row, true, n) <= Rank(g, seed, row, true, e);
    }
  }

  /** The weighted path elects the lowest id of the bucket the highest digest lies in. */
  lemma WeightedStaysInBucket(g: Scorer, seed: seq<nat>, row: nat, members: seq<Member>, e: Member, w: Member)
    requires DropsLowBits(g) && EqualWeights(members) && e.weight > 0
    requires TopDigest(g, seed, row, members, e) && Best(g, seed, row, false, members, w)
    ensures Bucket(g, seed, row, w) == Bucket(g, seed, row, e) && LowestInBucket(g, seed, row, members, w)
  {
    DivMonotone(Digest(g, seed, RowSeed(g, seed, row), w), Digest(g, seed, RowSeed(g, seed, row), e));
    assert Rank(g, seed, row, false, e) <= Rank(g, seed, row, false, w);
    forall n | n in members && Bucket(g, seed, row, n) == Bucket(g, seed, row, w) ensures w.id <= n.id {
      assert Rank(g, seed, row, false, n) == Rank(g, seed, row, false, w);
    }
  }

  lemma DivMonotone(a: nat, b: nat)
    requires a <= b
    ensures a / 2048 <= b / 2048
  {
  }

  /** A scorer whose digest is one byte of the hashed block and whose score drops its low bits. */
  function ByteScorer(): Scorer {
    Scorer((bytes: seq<nat>, key: seq<nat>) => if |bytes| == 24 then bytes[12] else 0, (d: nat, w: nat) => (d / 2048) as real)
  }

  lemma ByteScorerDropsLowBits()
    ensures DropsLowBits(ByteScorer())
  {
  }

  lemma ByteScorerDigest(rowSeed: nat, m: Member)
    requires |m.addr| == 4 && |m.mac| == 6
    ensures Digest(ByteScorer(), [], rowSeed, m) == m.vni % 256
  {
    var bytes := LeBytes(rowSeed, 8) + m.addr + LeBytes(m.vni, 3) + [0] + m.mac + [0, 0];
    assert bytes[12] == LeBytes(m.vni, 3)[0];
  }

  lemma AdjacentDigests(g: Scorer, high: Member, low: Member)
    requires DropsLowBits(g) && high.weight == low.weight > 0 && low.id < high.id
    requires Digest(g, [], RowSeed(g, [], 0), high) == 1 && Digest(g, [], RowSeed(g, [], 0), low) == 0
    ensures Elected(g, [], 0, true, [high, low], high.id) && Elected(g, [], 0, false, [high, low], low.id)
  {
    assert Best(g, [], 0, true, [high, low], high);
    assert Best(g, [], 0, false, [high, low], low);
  }

  lemma ByteScorerElects(high: Member, low: Member)
    requires |high.addr| == |low.addr| == 4 && |high.mac| == |low.mac| == 6 && high.vni == 1 && low.vni == 0
    requires high.weight == low.weight > 0 && low.id < high.id
    ensures EqualWeights([high, low]) && forall m :: m in [high, low] ==> m.weight > 0
    ensures Elected(ByteScorer(), [], 0, true, [high, low], high.id) && Elected(ByteScorer(), [], 0, false, [high, low], low.id)
  {
    var g := ByteScorer();
    ByteScorerDropsLowBits();
    ByteScorerDigest(RowSeed(g, [], 0), high);
    ByteScorerDigest(RowSeed(g, [], 0), low);
    AdjacentDigests(g, high, low);
  }

  /** For some hash function: two members on adjacent digests, for which the paths elect
      different backends. */
  lemma PathsCanDisagree() returns (g: Scorer, members: seq<Member>)
    ensures DropsLowBits(g) && EqualWeights(members) && forall m :: m in members ==> m.weight > 0
    ensures Elected(g, [], 0, true, members, 5) && Elected(g, [], 0, false, members, 3)
  {
    var high, low := Member(5, 1, [10, 0, 0, 1], 1, [2, 0, 0, 0, 0, 1]), Member(3, 1, [10, 0, 0, 2], 0, [2, 0, 0, 0, 0, 2]);
    g, members := ByteScorer(), [high, low];
    ByteScorerDropsLowBits();
    ByteScorerElects(high, low);
  }
}
