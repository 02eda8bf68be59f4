/** `reconcile_apply`: the map writes of a configuration change, in order, each of which may
    fail. Every write is one map operation, and appends the state it leaves to a history that
    always ends in the current state. A property of the whole history is so a property of every
    state a packet can meet, and of the state a failed run leaves behind. */
module Reconcile {
  import opened Types
  import opened Counting
  import opened BlockAccounting
  import opened Acl
  import opened LiveMaps
  import FwdGen
  import VipAlloc

  // ---- the configuration -------------------------------------------------------------------

  datatype ConfMember = ConfMember(backendId: nat, weight: nat)

  datatype ConfVip = ConfVip(keys: seq<VipKey>, flags: nat, hashKey: seq<nat>, seed: seq<nat>, members: seq<ConfMember>)

  /** `rules` holds the four rule lists, at the index of their trie. */
  datatype Conf = Conf(vips: seq<ConfVip>, backends: seq<Backend>, aclEnabled: bool, rules: seq<seq<Prefix>>)

  function Groups(conf: Conf): (groups: seq<seq<VipKey>>)
    ensures |groups| == |conf.vips|
    ensures forall i :: 0 <= i < |groups| ==> groups[i] == conf.vips[i].keys
  {
    seq(|conf.vips|, i requires 0 <= i < |conf.vips| => conf.vips[i].keys)
  }

  ghost function IdsOf(backends: seq<Backend>): set<nat> {
    set i | 0 <= i < |backends| :: backends[i].id
  }

  lemma IdsStep(backends: seq<Backend>, i: nat)
    requires i < |backends|
    ensures IdsOf(backends[..i + 1]) == IdsOf(backends[..i]) + {backends[i].id}
  {
    var longer, shorter := backends[..i + 1], backends[..i];
    forall id | id in IdsOf(longer) ensures id in IdsOf(shorter) + {backends[i].id} {
      var j :| 0 <= j < |longer| && longer[j].id == id;
      assert j < i ==> shorter[j].id == id;
    }
    forall id | id in IdsOf(shorter) ensures id in IdsOf(longer) {
      var j :| 0 <= j < |shorter| && shorter[j].id == id;
      assert longer[j].id == id;
    }
    assert longer[i].id == backends[i].id;
  }

  /** Index of the first backend with this id, or -1. */
  function FindBackend(backends: seq<Backend>, id: nat): (i: int)
    ensures -1 <= i < |backends|
    ensures i >= 0 ==> backends[i].id == id
    ensures forall j :: 0 <= j < i ==> backends[j].id != id
    ensures i < 0 ==> forall j :: 0 <= j < |backends| ==> backends[j].id != id
  {
    if backends == [] then -1
    else
      var i := FindBackend(backends[..|backends| - 1], id);
      if i >= 0 then i else if backends[|backends| - 1].id == id then |backends| - 1 else -1
  }

  /** What the generator is given: a member without a backend stays a zeroed record. */
  function ResolveMember(conf: Conf, m: ConfMember): FwdGen.Member {
    var i := FindBackend(conf.backends, m.backendId);
    if i < 0 then FwdGen.Member(0, 0, [0, 0, 0, 0], 0, [0, 0, 0, 0, 0, 0])
    else
      var b := conf.backends[i];
      FwdGen.Member(b.id, m.weight, b.addr, b.vni, b.innerMac)
  }

  function Resolve(conf: Conf, vip: ConfVip): (members: seq<FwdGen.Member>)
    ensures |members| == |vip.members|
  {
    seq(|vip.members|, i requires 0 <= i < |vip.members| => ResolveMember(conf, vip.members[i]))
  }

  // ---- what a configuration asks for -----------------------------------------------------------

  /** The member the configuration describes: its own id and weight, and the address, network and
      inner MAC of the backend with that id, the first if there are several; zeroes if there is none. */
  ghost predicate DescribesMember(conf: Conf, want: ConfMember, m: FwdGen.Member) {
    || (exists k :: 0 <= k < |conf.backends| && FirstWithId(conf.backends, k, want.backendId) &&
          m == FwdGen.Member(want.backendId, want.weight, conf.backends[k].addr, conf.backends[k].vni, conf.backends[k].innerMac))
    || ((forall k :: 0 <= k < |conf.backends| ==> conf.backends[k].id != want.backendId) &&
          m == FwdGen.Member(0, 0, [0, 0, 0, 0], 0, [0, 0, 0, 0, 0, 0]))
  }

  ghost predicate FirstWithId(backends: seq<Backend>, k: nat, id: nat)
    requires k < |backends|
  {
    backends[k].id == id && forall j :: 0 <= j < k ==> backends[j].id != id
  }

  /** The members of a VIP, in any order. */
  ghost predicate MembersOf(conf: Conf, vip: ConfVip, members: seq<FwdGen.Member>) {
    forall m :: m in members <==> exists i :: 0 <= i < |vip.members| && DescribesMember(conf, vip.members[i], m)
  }

  /** The row holds whom the members of the VIP elect. */
  ghost predicate RowServes(g: FwdGen.Scorer, conf: Conf, vip: ConfVip, row: nat, id: nat) {
    exists members :: MembersOf(conf, vip, members) && FwdGen.Elected(g, vip.seed, row, FwdGen.EqualWeights(members), members, id)
  }

  /** A live value is a VIP's own: its flags, its hash key, and a block full of its elected members. */
  ghost predicate ValueServes(g: FwdGen.Scorer, conf: Conf, tableSize: nat, s: Kernel, vip: ConfVip, meta: VipMeta) {
    && meta.flags == vip.flags && meta.hashKey == vip.hashKey
    && forall row: nat :: row < tableSize ==> RowServes(g, conf, vip, row, Row(s, tableSize, meta.vipNum, row))
  }

  /** The maps serve the configuration: its keys and no others are live, each with a value of its own
      VIP; different VIPs have different blocks; its backends and no others are populated, each slot
      with a backend of that id; filtering is switched as configured. */
  ghost predicate Serves(g: FwdGen.Scorer, conf: Conf, tableSize: nat, maxBackends: nat, s: Kernel)
    requires |conf.rules| == TRIES
  {
    && (forall key :: key in s.vipMap ==> IsConfigured(conf, key))
    && (forall j, key :: 0 <= j < |conf.vips| && key in conf.vips[j].keys ==> KeyServes(g, conf, tableSize, s, conf.vips[j], key))
    && BlocksApartIn(conf, s)
    && (forall k :: 0 <= k < |conf.backends| ==> SlotServes(conf, s, conf.backends[k].id))
    && (forall id :: 1 <= id < maxBackends && id in s.backends ==> SlotServes(conf, s, id))
    && WellFormed(s.acl) && s.acl.enabled == conf.aclEnabled
    && forall t :: 0 <= t < TRIES ==> (s.acl.lists[t] <==> conf.rules[t] != [])
  }

  ghost predicate IsConfigured(conf: Conf, key: VipKey) {
    exists j :: 0 <= j < |conf.vips| && key in conf.vips[j].keys
  }

  ghost predicate KeyServes(g: FwdGen.Scorer, conf: Conf, tableSize: nat, s: Kernel, vip: ConfVip, key: VipKey) {
    key in s.vipMap && ValueServes(g, conf, tableSize, s, vip, s.vipMap[key])
  }

  /** Keys lead to the same block exactly when they belong to the same VIP. */
  ghost predicate BlocksApartIn(conf: Conf, s: Kernel) {
    forall i, j, key, key' :: 0 <= i < |conf.vips| && 0 <= j < |conf.vips| && key in conf.vips[i].keys && key' in conf.vips[j].keys ==>
      (NumOf(s, key) == NumOf(s, key') <==> i == j)
  }

  ghost function NumOf(s: Kernel, key: VipKey): int { if key in s.vipMap then s.vipMap[key].vipNum else UNSET }

  ghost predicate SlotServes(conf: Conf, s: Kernel, id: nat) {
    id in s.backends && s.backends[id].id == id && s.backends[id] in conf.backends
  }

  /** The source's member loop finds exactly the described members. */
  lemma ResolvesMembers(conf: Conf, vip: ConfVip)
    ensures MembersOf(conf, vip, Resolve(conf, vip))
  {
    var members := Resolve(conf, vip);
    forall m ensures m in members <==> exists i :: 0 <= i < |vip.members| && DescribesMember(conf, vip.members[i], m) {
      if m in members {
        var i :| 0 <= i < |members| && members[i] == m;
        ResolvesMember(conf, vip.members[i], m);
      }
      if i :| 0 <= i < |vip.members| && DescribesMember(conf, vip.members[i], m) {
        ResolvesMember(conf, vip.members[i], m);
        assert members[i] == m;
      }
    }
  }

  /** The source's loop over the members, and over the backends for each. */
  method ResolveMembers(conf: Conf, vip: ConfVip) returns (members: seq<FwdGen.Member>)
    ensures members == Resolve(conf, vip)
    ensures |members| == |vip.members| && forall i :: 0 <= i < |members| ==> DescribesMember(conf, vip.members[i], members[i])
  {
    members := [];
    for i := 0 to |vip.members|
      invariant |members| == i && forall j :: 0 <= j < i ==> members[j] == ResolveMember(conf, vip.members[j])
    {
      var want := vip.members[i];
      var member := FwdGen.Member(0, 0, [0, 0, 0, 0], 0, [0, 0, 0, 0, 0, 0]);
      for k := 0 to |conf.backends|
        invariant forall j :: 0 <= j < k ==> conf.backends[j].id != want.backendId
        invariant member == FwdGen.Member(0, 0, [0, 0, 0, 0], 0, [0, 0, 0, 0, 0, 0])
      {
        var b := conf.backends[k];
        if b.id == want.backendId {
          member := FwdGen.Member(b.id, want.weight, b.addr, b.vni, b.innerMac);
          break;
        }
      }
      ResolvesMember(conf, want, member);
      members := members + [member];
    }
    assert members == Resolve(conf, vip);
    forall i | 0 <= i < |members| ensures DescribesMember(conf, vip.members[i], members[i]) {
      ResolvesMember(conf, vip.members[i], members[i]);
    }
  }

  lemma ResolvesMember(conf: Conf, want: ConfMember, m: FwdGen.Member)
    ensures m == ResolveMember(conf, want) <==> DescribesMember(conf, want, m)
  {
    var i := FindBackend(conf.backends, want.backendId);
    if i >= 0 {
      assert FirstWithId(conf.backends, i, want.backendId);
    }
  }

  ghost function Goal(conf: Conf): AclState
    requires |conf.rules| == TRIES
  {
    AclState(conf.aclEnabled,
             seq(TRIES, t requires 0 <= t < TRIES => conf.rules[t] != []),
             seq(TRIES, t requires 0 <= t < TRIES => set p | p in conf.rules[t]))
  }

  /** The run a plan describes: the values and tables its entries get. */
  ghost function PlannedRun(g: FwdGen.Scorer, conf: Conf, maxVips: nat, tableSize: nat, base: Kernel, nums: seq<int>, order: seq<nat>): Run
    requires |nums| == |conf.vips| && |conf.rules| == TRIES
    requires forall i :: 0 <= i < |nums| ==> 0 <= nums[i]
  {
    var n := |conf.vips|;
    Run(maxVips, tableSize, base, Groups(conf),
        seq(n, i requires 0 <= i < n => VipMeta(nums[i], conf.vips[i].flags, conf.vips[i].hashKey)),
        seq(n, i requires 0 <= i < n => FwdGen.Block(g, conf.vips[i].seed, tableSize, Resolve(conf, conf.vips[i]))),
        order, IdsOf(conf.backends), Goal(conf))
  }

  lemma TableRowWanted(g: FwdGen.Scorer, conf: Conf, vip: ConfVip, tableSize: nat, row: nat)
    requires row < tableSize
    ensures var id := FwdGen.Block(g, vip.seed, tableSize, Resolve(conf, vip))[row]; id == 0 || id in IdsOf(conf.backends)
  {
    var members := Resolve(conf, vip);
    var block := FwdGen.Block(g, vip.seed, tableSize, members);
    FwdGen.RowsNameMembers(g, vip.seed, tableSize, members, block, row);
    if members != [] {
      var m :| m in members && m.id == block[row];
      var i :| 0 <= i < |members| && members[i] == m;
      var b := FindBackend(conf.backends, vip.members[i].backendId);
      assert b >= 0 ==> conf.backends[b].id in IdsOf(conf.backends);
    }
  }

  /** `baseline` lists the rows of the live map, each key once, in the order the kernel gave them. */
  ghost predicate Enumerates(baseline: seq<Baseline>, vipMap: map<VipKey, VipMeta>) {
    && DistinctBaseline(baseline)
    && (forall b :: 0 <= b < |baseline| ==> baseline[b].key in vipMap && baseline[b].num == vipMap[baseline[b].key].vipNum)
    && (forall key :: key in vipMap ==> Listed(baseline, key))
  }

  ghost predicate Listed(baseline: seq<Baseline>, key: VipKey) {
    exists b :: 0 <= b < |baseline| && baseline[b].key == key
  }

  /** A safe plan over an enumerated baseline is a valid run. */
  lemma PlanIsRun(g: FwdGen.Scorer, conf: Conf, maxVips: nat, tableSize: nat, base: Kernel, baseline: seq<Baseline>, nums: seq<int>,
                  plan: VipAlloc.Plan)
    requires |conf.rules| == TRIES && WellFormed(base.acl) && |base.fwd| == maxVips * tableSize
    requires DisjointGroups(Groups(conf)) && Enumerates(baseline, base.vipMap)
    requires ValidInput(Groups(conf), baseline, maxVips)
    requires VipAlloc.SafePlan(Groups(conf), baseline, maxVips, nums, plan)
    ensures ValidRun(PlannedRun(g, conf, maxVips, tableSize, base, nums, plan.writeOrder))
    ensures TablesWanted(PlannedRun(g, conf, maxVips, tableSize, base, nums, plan.writeOrder))
    ensures ReleasesUnused(PlannedRun(g, conf, maxVips, tableSize, base, nums, plan.writeOrder), plan.release)
  {
    var c := PlannedRun(g, conf, maxVips, tableSize, base, nums, plan.writeOrder);
    forall key | key in base.vipMap ensures base.vipMap[key].vipNum < maxVips {
      assert Listed(baseline, key);
    }
    forall t, key | 0 <= t < |c.order| && key in base.vipMap && Later(c, key, t)
      ensures base.vipMap[key].vipNum != c.metas[c.order[t]].vipNum
    {
      assert Listed(baseline, key);
      var b :| 0 <= b < |baseline| && baseline[b].key == key;
      assert VipAlloc.StillAway(c.groups, baseline[b].key, c.order[..t + 1]);
    }
    forall j, row | 0 <= j < |c.tables| && 0 <= row < |c.tables[j]| ensures c.tables[j][row] == 0 || c.tables[j][row] in c.wanted {
      TableRowWanted(g, conf, conf.vips[j], tableSize, row);
    }
    assert forall i :: 0 <= i < |plan.release| ==> plan.release[i] in plan.release;
    assert forall j :: 0 <= j < |c.metas| ==> c.metas[j].vipNum in nums;
  }

  // ---- phases, with the maps that do not move in them ------------------------------------------

  /** The tries are on their way, under the union of the old and the new bits. */
  ghost predicate AclWork(c: Run, a: AclState)
    requires WellFormed(c.base.acl) && WellFormed(c.goal)
  {
    && WellFormed(a) && a.enabled == c.goal.enabled
    && (forall t :: 0 <= t < TRIES ==> Between(a.tries[t], c.base.acl.tries[t], c.goal.tries[t]))
    && (forall t :: 0 <= t < TRIES && (c.base.acl.lists[t] || c.goal.lists[t]) ==> a.lists[t])
  }

  /** The rules of a trie are never skipped, if they were not before the run. */
  ghost predicate Covered(c: Run, s: Kernel) {
    && WellFormed(s.acl) && WellFormed(c.base.acl)
    && (BitsCover(c.base.acl) ==> BitsCover(s.acl))
  }

  ghost predicate AclFine(c: Run, s: Kernel) {
    AclSteady(c, s) && Covered(c, s)
  }

  lemma AclStart(c: Run, s: Kernel)
    requires ValidRun(c) && s.acl == c.base.acl
    ensures AclFine(c, s)
  {
  }

  lemma AclWorkFine(c: Run, s: Kernel)
    requires ValidRun(c) && BitsCover(c.goal) && AclWork(c, s.acl)
    ensures AclFine(c, s)
  {
    forall t | 0 <= t < TRIES && BitsCover(c.base.acl) && s.acl.tries[t] != {} ensures s.acl.lists[t] {
      var p :| p in s.acl.tries[t];
      assert p in c.base.acl.tries[t] || p in c.goal.tries[t];
    }
  }

  ghost predicate Front(c: Run, s: Kernel) {
    Pruning(c, s) && c.base.backends.Keys <= s.backends.Keys && AclFine(c, s)
  }

  ghost predicate Middle(c: Run, s: Kernel, n: nat, busy: bool, pub: set<VipKey>)
    requires ValidRun(c)
  {
    Moving(c, s, n, busy, pub) && c.base.backends.Keys + c.wanted <= s.backends.Keys && AclFine(c, s)
  }

  ghost predicate Back(c: Run, s: Kernel)
    requires ValidRun(c)
  {
    Arrived(c, s) && c.wanted <= s.backends.Keys && AclFine(c, s)
  }

  lemma FrontSound(c: Run, s: Kernel)
    requires ValidRun(c) && |c.base.vipMap| <= c.maxVips && Front(c, s)
    ensures Sound(c, s)
  {
    PruningRouted(c, s);
  }

  lemma MiddleSound(c: Run, s: Kernel, n: nat, busy: bool, pub: set<VipKey>)
    requires ValidRun(c) && TablesWanted(c) && Middle(c, s, n, busy, pub)
    ensures Sound(c, s)
  {
    MovingSafe(c, s, n, busy, pub);
    if RowsPopulated(c, c.base) {
      RoutedPopulated(c, s);
    }
  }

  lemma BackSound(c: Run, s: Kernel)
    requires ValidRun(c) && TablesWanted(c) && Back(c, s)
    ensures Sound(c, s)
  {
    ArrivedRouted(c, s);
  }

  /** Sound, and no rule is skipped. */
  ghost predicate Safe(c: Run, s: Kernel)
    requires ValidRun(c)
  {
    Sound(c, s) && Covered(c, s)
  }

  ghost predicate AllSafe(c: Run, history: seq<Kernel>)
    requires ValidRun(c)
  {
    forall i :: 0 <= i < |history| ==> SafeAt(c, history, i)
  }

  ghost predicate SafeAt(c: Run, history: seq<Kernel>, i: nat)
    requires ValidRun(c) && i < |history|
  {
    Safe(c, history[i])
  }

  /** The recorded run so far: from the state it started in to the current one, by single allowed
      operations, over safe states only. */
  ghost predicate Chronicle(c: Run, history: seq<Kernel>, k: Kernel)
    requires ValidRun(c)
  {
    && history != [] && history[0] == c.base && history[|history| - 1] == k
    && AllSafe(c, history) && Stepwise(c, history)
  }

  lemma ChronicleExtends(c: Run, history: seq<Kernel>, k: Kernel, op: Op, next: Kernel)
    requires ValidRun(c) && Chronicle(c, history, k) && StepBy(c, k, op, next) && Safe(c, next)
    ensures Chronicle(c, history + [next], next)
  {
    StepwiseExtends(c, history, k, op, next);
    forall i | 0 <= i <= |history| ensures SafeAt(c, history + [next], i) {
      assert i < |history| ==> SafeAt(c, history, i);
    }
  }

  /** A whole run as recorded: single allowed operations from the state it started in to the one
      it left, over safe states; the last write may have hidden a rule. */
  ghost predicate Recorded(c: Run, history: seq<Kernel>, k: Kernel)
    requires ValidRun(c)
  {
    && history != [] && history[0] == c.base && history[|history| - 1] == k && Stepwise(c, history)
    && AllSafe(c, history[..|history| - 1]) && Sound(c, k)
  }

  /** A run that gives up does so in a safe state, as every state before it was. */
  lemma FailedSafe(c: Run, history: seq<Kernel>, k: Kernel)
    requires ValidRun(c) && Chronicle(c, history, k)
    ensures Recorded(c, history, k) && Covered(c, k)
  {
    NowSafe(c, history, k);
    var before := history[..|history| - 1];
    forall i | 0 <= i < |before| ensures SafeAt(c, before, i) {
      assert SafeAt(c, history, i);
    }
  }

  lemma NowSafe(c: Run, history: seq<Kernel>, k: Kernel)
    requires ValidRun(c) && Chronicle(c, history, k)
    ensures Safe(c, k)
  {
    assert SafeAt(c, history, |history| - 1);
  }

  /** The live map with the unwanted ones among the first `n` baseline keys deleted. */
  ghost predicate PrunedUpTo(now: map<VipKey, VipMeta>, base: map<VipKey, VipMeta>, groups: seq<seq<VipKey>>, baseline: seq<Baseline>, n: nat)
    requires n <= |baseline|
  {
    && now.Keys <= base.Keys
    && (forall key :: key in base && Owner(groups, key) != UNSET ==> key in now)
    && (forall b :: 0 <= b < n && Owner(groups, baseline[b].key) == UNSET ==> baseline[b].key !in now)
  }

  lemma PrunedStep(now: map<VipKey, VipMeta>, base: map<VipKey, VipMeta>, groups: seq<seq<VipKey>>, baseline: seq<Baseline>, i: nat)
    requires i < |baseline| && PrunedUpTo(now, base, groups, baseline, i)
    ensures Owner(groups, baseline[i].key) != UNSET ==> PrunedUpTo(now, base, groups, baseline, i + 1)
    ensures Owner(groups, baseline[i].key) == UNSET ==> PrunedUpTo(now - {baseline[i].key}, base, groups, baseline, i + 1)
  {
  }

  lemma PrunedAll(now: map<VipKey, VipMeta>, base: map<VipKey, VipMeta>, groups: seq<seq<VipKey>>, baseline: seq<Baseline>)
    requires PrunedUpTo(now, base, groups, baseline, |baseline|) && Enumerates(baseline, base)
    ensures forall key :: key in now <==> key in base && Owner(groups, key) != UNSET
  {
    forall key | key in now ensures Owner(groups, key) != UNSET {
      assert Listed(baseline, key);
    }
  }

  lemma PruneStep(c: Run, s: Kernel, key: VipKey)
    requires ValidRun(c) && |c.base.vipMap| <= c.maxVips && Front(c, s) && s.acl == c.base.acl && Owner(c.groups, key) == UNSET
    ensures var next := Done(s, c.tableSize, DeleteKey(key)); Front(c, next) && Safe(c, next)
  {
    var next := Done(s, c.tableSize, DeleteKey(key));
    AclStart(c, next);
    FrontSound(c, next);
  }

  /** The first configuration write: the new flag, and the union of the old and new bits. */
  lemma UnionStep(c: Run, s: Kernel, lists: seq<bool>)
    requires ValidRun(c) && |c.base.vipMap| <= c.maxVips && Front(c, s) && s.acl == c.base.acl
    requires BitsCover(c.goal) && |lists| == TRIES
    requires forall t :: 0 <= t < TRIES ==> lists[t] == (s.acl.lists[t] || c.goal.lists[t])
    ensures var next := Done(s, c.tableSize, PutConfig(c.goal.enabled, lists)); Front(c, next) && AclWork(c, next.acl) && Safe(c, next)
  {
    var next := Done(s, c.tableSize, PutConfig(c.goal.enabled, lists));
    AclWorkFine(c, next);
    FrontSound(c, next);
  }

  /** A trie that had `base`, after `added` was inserted. */
  ghost predicate Grown(trie: set<Prefix>, base: set<Prefix>, added: seq<Prefix>) {
    forall p :: p in trie <==> p in base || p in added
  }

  /** The tries after the first `i` rules were inserted into one of them. */
  ghost predicate Inserting(before: AclState, now: AclState, t: nat, rules: seq<Prefix>, i: nat, maxAcl: nat) {
    && WellFormed(before) && WellFormed(now) && t < TRIES && i <= |rules|
    && (forall u :: 0 <= u < TRIES && u != t ==> now.tries[u] == before.tries[u])
    && Grown(now.tries[t], before.tries[t], rules[..i])
    && (|before.tries[t]| <= maxAcl ==> |now.tries[t]| <= maxAcl)
  }

  lemma InsertStep(before: AclState, now: AclState, base: set<Prefix>, goal: set<Prefix>, t: nat, rules: seq<Prefix>, i: nat, maxAcl: nat)
    requires Inserting(before, now, t, rules, i, maxAcl) && i < |rules| && before.tries[t] == base && goal == set p | p in rules
    ensures var trie := now.tries[t] + {rules[i]};
            && Between(trie, base, goal) && |trie| <= |base + goal| && base <= now.tries[t]
            && (rules[i] in now.tries[t] || |now.tries[t]| < maxAcl ==>
                  Inserting(before, now.(tries := now.tries[t := trie]), t, rules, i + 1, maxAcl))
            && (rules[i] !in now.tries[t] ==> |trie| == |now.tries[t]| + 1)
  {
    var trie := now.tries[t] + {rules[i]};
    assert rules[..i + 1] == rules[..i] + [rules[i]];
    assert rules[i] in now.tries[t] ==> trie == now.tries[t];
    SubsetCount(trie, base + goal);
  }

  /** A trie that had `base` and all of `goal`, after the unwanted ones of `gone` were deleted. */
  ghost predicate Trimmed(trie: set<Prefix>, base: set<Prefix>, goal: set<Prefix>, gone: seq<Prefix>) {
    forall p :: p in trie <==> p in goal || (p in base && p !in gone)
  }

  lemma TrimStep(trie: set<Prefix>, base: set<Prefix>, goal: set<Prefix>, existing: seq<Prefix>, i: nat)
    requires i < |existing| && Trimmed(trie, base, goal, existing[..i])
    ensures existing[i] in goal ==> Trimmed(trie, base, goal, existing[..i + 1])
    ensures existing[i] !in goal ==> Trimmed(trie - {existing[i]}, base, goal, existing[..i + 1])
    ensures existing[i] !in goal ==> Between(trie - {existing[i]}, base, goal)
  {
    assert existing[..i + 1] == existing[..i] + [existing[i]];
  }

  method RuleWanted(rules: seq<Prefix>, rule: Prefix) returns (wanted: bool)
    ensures wanted <==> rule in rules
  {
    for j := 0 to |rules|
      invariant rule !in rules[..j]
    {
      if rules[j] == rule {
        return true;
      }
    }
    return false;
  }

  lemma TrieStep(c: Run, s: Kernel, op: Op)
    requires ValidRun(c) && |c.base.vipMap| <= c.maxVips && Front(c, s) && AclWork(c, s.acl) && BitsCover(c.goal)
    requires (op.InsertRule? || op.DeleteRule?) && op.trie < TRIES
    requires var t := op.trie; Between(Done(s, c.tableSize, op).acl.tries[t], c.base.acl.tries[t], c.goal.tries[t])
    ensures var next := Done(s, c.tableSize, op); Front(c, next) && AclWork(c, next.acl) && Safe(c, next)
  {
    var next := Done(s, c.tableSize, op);
    AclWorkFine(c, next);
    FrontSound(c, next);
  }

  /** `now` is `before` with the first `n` backends written over it. */
  ghost predicate Populated(now: map<nat, Backend>, before: map<nat, Backend>, backends: seq<Backend>, n: nat)
    requires n <= |backends|
  {
    && now.Keys == before.Keys + IdsOf(backends[..n])
    && forall id :: id in IdsOf(backends[..n]) ==> now[id] in backends && now[id].id == id
  }

  lemma PopulatedStep(now: map<nat, Backend>, before: map<nat, Backend>, backends: seq<Backend>, i: nat)
    requires i < |backends| && Populated(now, before, backends, i)
    ensures Populated(now[backends[i].id := backends[i]], before, backends, i + 1)
  {
    IdsStep(backends, i);
  }

  lemma BackendStep(c: Run, s: Kernel, b: Backend)
    requires ValidRun(c) && |c.base.vipMap| <= c.maxVips && Front(c, s)
    ensures var next := Done(s, c.tableSize, PutBackend(b)); Front(c, next) && Safe(c, next)
  {
    var next := Done(s, c.tableSize, PutBackend(b));
    FrontSound(c, next);
  }

  /** The tables are about to be written: every live key is wanted, every backend is there. */
  lemma FrontBecomesMiddle(c: Run, s: Kernel)
    requires ValidRun(c) && Front(c, s) && c.wanted <= s.backends.Keys
    requires forall key :: key in s.vipMap ==> Owner(c.groups, key) != UNSET
    ensures Middle(c, s, 0, false, {})
  {
    assert forall v: nat, r: nat :: Row(s, c.tableSize, v, r) == Row(c.base, c.tableSize, v, r);
  }

  lemma PublishStep(c: Run, s: Kernel, n: nat, pub: set<VipKey>, entry: nat, key: VipKey, meta: VipMeta)
    requires ValidRun(c) && TablesWanted(c) && Middle(c, s, n, false, pub)
    requires entry < |c.groups| && key in c.groups[entry] && entry in c.order[..n] && meta == c.metas[entry]
    ensures Owner(c.groups, key) == entry
    ensures var next := Done(s, c.tableSize, PutKey(key, meta)); Middle(c, next, n, false, pub + {key}) && Safe(c, next)
  {
    OwnerIs(c.groups, key, entry);
    var next := Done(s, c.tableSize, PutKey(key, meta));
    PublishPhase(c, s, n, pub, key);
    MiddleSound(c, next, n, false, pub + {key});
  }

  /** Whatever part of the block has been written, the state is safe. */
  ghost predicate BlockSafe(c: Run, s0: Kernel, num: nat, values: seq<nat>)
    requires ValidRun(c)
  {
    forall s :: PartialBlock(c.tableSize, s0, num, values, s) ==> Safe(c, s)
  }

  ghost predicate BlockAllowed(c: Run, num: nat, values: seq<nat>)
    requires ValidRun(c)
  {
    |values| == c.tableSize && forall row: nat :: row < c.tableSize ==> Allowed(c, PutRow(num, row, values[row]))
  }

  lemma PartialBlockMiddle(c: Run, s0: Kernel, s: Kernel, n: nat, pub: set<VipKey>)
    requires ValidRun(c) && TablesWanted(c) && n < |c.order| && Middle(c, s0, n, true, pub)
    requires PartialBlock(c.tableSize, s0, Num(c, n), c.tables[c.order[n]], s)
    ensures Middle(c, s, n, true, pub) && Safe(c, s)
  {
    WriteBlockPhase(c, s0, s, n, pub);
    MiddleSound(c, s, n, true, pub);
  }

  /** The next block of the order may be written, row by row. */
  lemma TableBlock(c: Run, s0: Kernel, n: nat, pub: set<VipKey>)
    requires ValidRun(c) && TablesWanted(c) && n < |c.order| && Middle(c, s0, n, true, pub)
    ensures BlockSafe(c, s0, Num(c, n), c.tables[c.order[n]]) && BlockAllowed(c, Num(c, n), c.tables[c.order[n]])
  {
    forall s | PartialBlock(c.tableSize, s0, Num(c, n), c.tables[c.order[n]], s) ensures Safe(c, s) {
      PartialBlockMiddle(c, s0, s, n, pub);
    }
    assert InUse(c, Num(c, n)) && OwnerOfBlock(c, Num(c, n)) == c.order[n];
  }

  /** A block nobody owns may be zeroed, row by row. */
  lemma SpareBlock(c: Run, s0: Kernel, num: nat, zeros: seq<nat>)
    requires ValidRun(c) && TablesWanted(c) && Back(c, s0)
    requires forall j :: 0 <= j < |c.metas| ==> c.metas[j].vipNum != num
    requires |zeros| == c.tableSize && forall r :: 0 <= r < |zeros| ==> zeros[r] == NO_BACKEND
    ensures BlockSafe(c, s0, num, zeros) && BlockAllowed(c, num, zeros)
  {
    forall s | PartialBlock(c.tableSize, s0, num, zeros, s) ensures Safe(c, s) {
      PartialBlockBack(c, s0, s, num, zeros);
    }
    assert !InUse(c, num);
  }

  ghost predicate Zeroed(s: Kernel, tableSize: nat, num: nat) {
    forall r: nat :: r < tableSize ==> Row(s, tableSize, num, r) == NO_BACKEND
  }

  /** No row has changed but to zero. */
  ghost predicate ZeroedMore(tableSize: nat, s0: Kernel, s: Kernel) {
    forall v: nat, r: nat :: r < tableSize ==> Row(s, tableSize, v, r) == Row(s0, tableSize, v, r) || Row(s, tableSize, v, r) == NO_BACKEND
  }

  lemma PartialBlockBack(c: Run, s0: Kernel, s: Kernel, num: nat, values: seq<nat>)
    requires ValidRun(c) && TablesWanted(c) && Back(c, s0)
    requires PartialBlock(c.tableSize, s0, num, values, s)
    requires forall j :: 0 <= j < |c.metas| ==> c.metas[j].vipNum != num
    ensures Back(c, s) && Safe(c, s)
  {
    ReleasePhase(c, s0, s, num, values);
    BackSound(c, s);
  }

  lemma RetireStep(c: Run, s: Kernel, id: nat)
    requires ValidRun(c) && TablesWanted(c) && Back(c, s) && id !in c.wanted
    ensures var next := Done(s, c.tableSize, ClearBackend(id)); Back(c, next) && Safe(c, next)
  {
    var next := Done(s, c.tableSize, ClearBackend(id));
    assert forall v: nat, r: nat :: Row(next, c.tableSize, v, r) == Row(s, c.tableSize, v, r);
    BackSound(c, next);
  }

  /** No slot has been filled or changed, and of those below `id` only wanted ones are left. */
  ghost predicate RetiredUpTo(now: map<nat, Backend>, before: map<nat, Backend>, wanted: set<nat>, id: nat) {
    && (forall x :: x in now ==> x in before && now[x] == before[x])
    && (forall x :: 1 <= x < id && x in now ==> x in wanted)
  }

  ghost function KeysOf(keys: seq<VipKey>): set<VipKey> {
    set key | key in keys
  }

  lemma KeysOfPrefixes(keys: seq<VipKey>, pub: set<VipKey>)
    ensures pub + KeysOf(keys[..0]) == pub && keys[..|keys|] == keys
    ensures forall i :: 0 <= i < |keys| ==> pub + KeysOf(keys[..i + 1]) == pub + KeysOf(keys[..i]) + {keys[i]}
  {
    forall i | 0 <= i < |keys| ensures pub + KeysOf(keys[..i + 1]) == pub + KeysOf(keys[..i]) + {keys[i]} {
      assert keys[..i + 1] == keys[..i] + [keys[i]];
    }
  }

  /** The run holds this entry's value and table. */
  ghost predicate Describes(c: Run, g: FwdGen.Scorer, conf: Conf, entry: nat, num: nat)
    requires ValidRun(c) && entry < |conf.vips|
  {
    && entry < |c.metas|
    && c.metas[entry] == VipMeta(num, conf.vips[entry].flags, conf.vips[entry].hashKey)
    && c.tables[entry] == FwdGen.Block(g, conf.vips[entry].seed, c.tableSize, Resolve(conf, conf.vips[entry]))
  }

  /** Every key of the first `n` entries of the order is among the published ones. */
  ghost predicate PublishedUpTo(c: Run, n: nat, pub: set<VipKey>)
    requires ValidRun(c) && n <= |c.order|
  {
    forall key :: Owner(c.groups, key) in c.order[..n] ==> key in pub
  }

  lemma PublishedStep(c: Run, conf: Conf, n: nat, pub: set<VipKey>)
    requires ValidRun(c) && n < |c.order| && PublishedUpTo(c, n, pub) && c.groups == Groups(conf)
    ensures PublishedUpTo(c, n + 1, pub + KeysOf(conf.vips[c.order[n]].keys))
  {
    assert c.order[..n + 1] == c.order[..n] + [c.order[n]];
  }

  lemma AllPublishedArrives(c: Run, s: Kernel, pub: set<VipKey>)
    requires ValidRun(c) && Middle(c, s, |c.order|, false, pub) && PublishedUpTo(c, |c.order|, pub)
    ensures Back(c, s)
  {
    assert c.order[..|c.order|] == c.order;
    forall key | Owner(c.groups, key) != UNSET ensures key in pub {
      OrderComplete(c, Owner(c.groups, key));
    }
    MovingArrives(c, s, pub);
  }

  /** The last write narrows the bits to the new lists. */
  lemma NarrowStep(c: Run, s: Kernel)
    requires ValidRun(c) && TablesWanted(c) && Back(c, s) && AclWork(c, s.acl) && BitsCover(c.goal)
    ensures var next := Done(s, c.tableSize, PutConfig(c.goal.enabled, c.goal.lists)); Arrived(c, next) && Sound(c, next)
  {
    var next := Done(s, c.tableSize, PutConfig(c.goal.enabled, c.goal.lists));
    assert forall v: nat, r: nat :: Row(next, c.tableSize, v, r) == Row(s, c.tableSize, v, r);
    ArrivedRouted(c, next);
  }

  /** What is left in the tries when each had `listed[t]` to go by. */
  ghost predicate TriesLeft(c: Run, a: AclState, listed: seq<seq<Prefix>>, n: nat)
    requires WellFormed(c.base.acl) && WellFormed(c.goal) && WellFormed(a)
  {
    && |listed| == n <= TRIES
    && (forall t, p :: 0 <= t < n ==> (p in a.tries[t] <==> p in c.goal.tries[t] || (p in c.base.acl.tries[t] && p !in listed[t])))
    && (forall t :: n <= t < TRIES ==> a.tries[t] == c.base.acl.tries[t])
  }

  /** Old and new rules of each list fit into the trie together, as the insert-first order needs. */
  ghost predicate AclRoom(c: Run, maxAcl: nat)
    requires WellFormed(c.base.acl) && WellFormed(c.goal)
  {
    forall t :: 0 <= t < TRIES ==> |c.base.acl.tries[t] + c.goal.tries[t]| <= maxAcl
  }

  /** No trie holds more rules than the kernel lets it. */
  ghost predicate TriesFit(a: AclState, maxAcl: nat)
    requires WellFormed(a)
  {
    forall t :: 0 <= t < TRIES ==> |a.tries[t]| <= maxAcl
  }

  /** A run gave up on a full trie before it deleted anything from it. */
  ghost predicate StillFull(c: Run, a: AclState, maxAcl: nat)
    requires WellFormed(c.base.acl) && WellFormed(c.goal) && WellFormed(a)
  {
    exists t :: 0 <= t < TRIES && Overfull(c, a, maxAcl, t)
  }

  ghost predicate Overfull(c: Run, a: AclState, maxAcl: nat, t: nat)
    requires WellFormed(c.base.acl) && WellFormed(c.goal) && WellFormed(a) && t < TRIES
  {
    |c.base.acl.tries[t] + c.goal.tries[t]| > maxAcl && c.base.acl.tries[t] <= a.tries[t]
  }

  /** The state a run gives up in for want of room. */
  ghost predicate GaveUp(c: Run, a: AclState, maxAcl: nat)
    requires WellFormed(c.base.acl) && WellFormed(c.goal)
  {
    WellFormed(a) && StillFull(c, a, maxAcl) && (TriesFit(c.base.acl, maxAcl) ==> TriesFit(a, maxAcl))
  }

  /** Giving up does not help the next attempt: the same lists have no room in what is left. */
  lemma RetryHasNoRoom(c: Run, a: AclState, maxAcl: nat, retry: Run)
    requires WellFormed(c.base.acl) && WellFormed(c.goal) && WellFormed(a) && StillFull(c, a, maxAcl)
    requires retry.base.acl == a && retry.goal == c.goal
    ensures !AclRoom(retry, maxAcl)
  {
    var t :| 0 <= t < TRIES && Overfull(c, a, maxAcl, t);
    SubsetCount(c.base.acl.tries[t] + c.goal.tries[t], a.tries[t] + c.goal.tries[t]);
  }

  /** What `Apply` can be given: a configuration and maps it starts from. */
  ghost predicate Startable(conf: Conf, maxVips: nat, tableSize: nat, maxAcl: nat, s: Kernel) {
    && |conf.rules| == TRIES && DisjointGroups(Groups(conf)) && ValidStart(conf, maxVips, s)
    && |s.fwd| == maxVips * tableSize && WellFormed(s.acl) && BitsCover(s.acl) && TriesFit(s.acl, maxAcl) && TriesFit(Goal(conf), maxAcl)
  }

  /** Maps with one rule in one trie, of a size of one, and nothing else. */
  function OneRule(p: Prefix): Kernel {
    Kernel(map[], [0], map[], AclState(true, [true, false, false, false], [{p}, {}, {}, {}]))
  }

  function OnlyRules(rules: seq<Prefix>): Conf { Conf([], [], true, [rules, [], [], []]) }

  /** From such maps a change of at most one rule can be planned. */
  lemma RulesRun(g: FwdGen.Scorer, rules: seq<Prefix>, p: Prefix)
    requires |rules| <= 1
    ensures Startable(OnlyRules(rules), 1, 1, 1, OneRule(p))
    ensures ValidRun(PlannedRun(g, OnlyRules(rules), 1, 1, OneRule(p), [], []))
    ensures Goal(OnlyRules(rules)).tries == [set q | q in rules, {}, {}, {}] && Goal(OnlyRules(rules)).lists[0] == (rules != [])
  {
    var goal := Goal(OnlyRules(rules));
    assert goal.tries[0] == (if rules == [] then {} else {rules[0]});
    assert goal.tries[1] == {} && goal.tries[2] == {} && goal.tries[3] == {};
  }

  /** A configuration change without room: a trie that is full with one rule, and another wanted. */
  lemma RoomCanBeMissing(g: FwdGen.Scorer, p: Prefix, q: Prefix)
    requires p != q
    ensures Startable(OnlyRules([q]), 1, 1, 1, OneRule(p))
    ensures var c := PlannedRun(g, OnlyRules([q]), 1, 1, OneRule(p), [], []); ValidRun(c) && !AclRoom(c, 1)
  {
    RulesRun(g, [q], p);
    var c := PlannedRun(g, OnlyRules([q]), 1, 1, OneRule(p), [], []);
    var both := c.base.acl.tries[0] + c.goal.tries[0];
    assert c.goal.tries[0] == {q} && both == {p, q} && |both| == 2;
  }

  /** Every rule of a list that goes empty was listed, and so deleted. */
  ghost predicate NothingMissed(c: Run, listed: seq<seq<Prefix>>)
    requires WellFormed(c.base.acl) && WellFormed(c.goal) && |listed| == TRIES
  {
    forall t, p :: 0 <= t < TRIES && c.goal.tries[t] == {} && p in c.base.acl.tries[t] ==> p in listed[t]
  }

  /** After the bits are narrowed, no rule is skipped exactly when no listing was cut short on
      a trie that had to be emptied. */
  lemma NarrowCoversExactly(c: Run, a: AclState, listed: seq<seq<Prefix>>)
    requires WellFormed(c.base.acl) && WellFormed(c.goal) && WellFormed(a) && BitsCover(c.goal)
    requires TriesLeft(c, a, listed, TRIES) && a.lists == c.goal.lists
    requires forall t :: 0 <= t < TRIES ==> (c.goal.lists[t] <==> c.goal.tries[t] != {})
    ensures BitsCover(a) <==> NothingMissed(c, listed)
  {
    if BitsCover(a) {
      forall t, p | 0 <= t < TRIES && c.goal.tries[t] == {} && p in c.base.acl.tries[t] ensures p in listed[t] {
        assert a.tries[t] == {};
      }
    }
    if NothingMissed(c, listed) {
      forall t | 0 <= t < TRIES && a.tries[t] != {} ensures a.lists[t] {
        var p :| p in a.tries[t];
      }
    }
  }

  /** The first `n` tries are done: what is in them, that they had room, and, as long as no
      operation failed, that their old rules were all listed. */
  ghost predicate TriesDone(c: Run, a: AclState, listed: seq<seq<Prefix>>, n: nat, maxAcl: nat, clean: bool)
    requires WellFormed(c.base.acl) && WellFormed(c.goal) && WellFormed(a) && n <= TRIES
  {
    && TriesLeft(c, a, listed, n)
    && (TriesFit(c.base.acl, maxAcl) ==> TriesFit(a, maxAcl) && forall u :: 0 <= u < n ==> DoneTrie(c, listed, u, maxAcl, clean))
  }

  ghost predicate DoneTrie(c: Run, listed: seq<seq<Prefix>>, u: nat, maxAcl: nat, clean: bool)
    requires WellFormed(c.base.acl) && WellFormed(c.goal) && u < TRIES && u < |listed|
  {
    |c.base.acl.tries[u] + c.goal.tries[u]| <= maxAcl && (clean ==> forall p :: p in c.base.acl.tries[u] ==> p in listed[u])
  }

  /** What reconciling one trie tells the others. */
  ghost predicate OneTrie(c: Run, a: AclState, b: AclState, t: nat, maxAcl: nat, ok: bool)
    requires WellFormed(c.base.acl) && WellFormed(c.goal) && t < TRIES
  {
    && WellFormed(a) && WellFormed(b)
    && (forall u :: 0 <= u < TRIES && u != t ==> b.tries[u] == a.tries[u])
    && (|c.base.acl.tries[t]| <= maxAcl ==> |b.tries[t]| <= maxAcl && (ok ==> |c.base.acl.tries[t] + c.goal.tries[t]| <= maxAcl))
  }

  lemma TriesDoneStep(c: Run, a: AclState, b: AclState, listed: seq<seq<Prefix>>, one: seq<Prefix>, t: nat, maxAcl: nat, clean: bool, clean': bool)
    requires WellFormed(c.base.acl) && WellFormed(c.goal) && t < TRIES && OneTrie(c, a, b, t, maxAcl, true)
    requires TriesDone(c, a, listed, t, maxAcl, clean) && (clean' ==> clean)
    requires forall p :: p in b.tries[t] <==> p in c.goal.tries[t] || (p in c.base.acl.tries[t] && p !in one)
    requires clean' && |c.base.acl.tries[t]| <= maxAcl ==> forall p :: p in c.base.acl.tries[t] ==> p in one
    ensures TriesDone(c, b, listed + [one], t + 1, maxAcl, clean')
  {
    var longer := listed + [one];
    if TriesFit(c.base.acl, maxAcl) {
      forall u | 0 <= u <= t ensures DoneTrie(c, longer, u, maxAcl, clean') {
        assert u < t ==> DoneTrie(c, listed, u, maxAcl, clean);
      }
    }
  }

  lemma TriesDoneAll(c: Run, a: AclState, listed: seq<seq<Prefix>>, maxAcl: nat, clean: bool)
    requires WellFormed(c.base.acl) && WellFormed(c.goal) && WellFormed(a) && TriesDone(c, a, listed, TRIES, maxAcl, clean)
    ensures TriesFit(c.base.acl, maxAcl) ==> AclRoom(c, maxAcl) && (clean ==> StaleListed(c, listed))
  {
    if TriesFit(c.base.acl, maxAcl) {
      forall t | 0 <= t < TRIES
        ensures |c.base.acl.tries[t] + c.goal.tries[t]| <= maxAcl && (clean ==> forall p :: p in c.base.acl.tries[t] ==> p in listed[t])
      {
        assert DoneTrie(c, listed, t, maxAcl, clean);
      }
    }
  }

  /** Every rule that had to go was listed. */
  ghost predicate StaleListed(c: Run, listed: seq<seq<Prefix>>)
    requires WellFormed(c.base.acl) && WellFormed(c.goal) && |listed| == TRIES
  {
    forall t, p :: 0 <= t < TRIES && p in c.base.acl.tries[t] && p !in c.goal.tries[t] ==> p in listed[t]
  }

  /** The tries end as configured exactly when no listing was cut short before a rule that had to go. */
  lemma TriesConvergeExactly(c: Run, a: AclState, listed: seq<seq<Prefix>>)
    requires WellFormed(c.base.acl) && WellFormed(c.goal) && WellFormed(a)
    requires TriesLeft(c, a, listed, TRIES)
    ensures a.tries == c.goal.tries <==> StaleListed(c, listed)
  {
    if StaleListed(c, listed) {
      forall t | 0 <= t < TRIES ensures a.tries[t] == c.goal.tries[t] {
      }
    }
  }

  /** A listing that stops at once, on a list that goes empty: the old rule survives, its bit is
      cleared, and it is hidden. */
  lemma CutListingHides(g: FwdGen.Scorer, p: Prefix) returns (c: Run, a: AclState, listed: seq<seq<Prefix>>)
    ensures Startable(OnlyRules([]), 1, 1, 1, OneRule(p)) && c == PlannedRun(g, OnlyRules([]), 1, 1, OneRule(p), [], [])
    ensures ValidRun(c) && WellFormed(a) && a.lists == c.goal.lists && |listed| == TRIES && TriesLeft(c, a, listed, TRIES)
    ensures p in a.tries[0] && !BitsCover(a) && !StaleListed(c, listed)
  {
    RulesRun(g, [], p);
    c := PlannedRun(g, OnlyRules([]), 1, 1, OneRule(p), [], []);
    a := AclState(true, c.goal.lists, c.base.acl.tries);
    listed := [[], [], [], []];
    assert a.tries[0] == {p} && c.goal.tries[0] == {} && !a.lists[0];
  }

  lemma GoalCovers(conf: Conf)
    requires |conf.rules| == TRIES
    ensures WellFormed(Goal(conf)) && BitsCover(Goal(conf))
    ensures forall t :: 0 <= t < TRIES ==> (Goal(conf).lists[t] <==> Goal(conf).tries[t] != {})
  {
    forall t | 0 <= t < TRIES ensures Goal(conf).lists[t] <==> Goal(conf).tries[t] != {} {
      if conf.rules[t] != [] {
        assert conf.rules[t][0] in Goal(conf).tries[t];
      }
    }
  }

  /** What the loader needs to find to start: block numbers in range, no more keys than the map
      holds, and a configuration within the same bound. */
  ghost predicate ValidStart(conf: Conf, maxVips: nat, s: Kernel) {
    && |s.vipMap| <= maxVips
    && (forall key :: key in s.vipMap ==> s.vipMap[key].vipNum < maxVips)
    && (forall i :: 0 <= i < |conf.vips| ==> conf.vips[i].keys != [])
    && TotalKeys(Groups(conf)) <= maxVips
  }

  lemma ValidStartIsValidInput(conf: Conf, maxVips: nat, s: Kernel, baseline: seq<Baseline>)
    requires ValidStart(conf, maxVips, s) && Enumerates(baseline, s.vipMap) && |baseline| == |s.vipMap|
    ensures ValidInput(Groups(conf), baseline, maxVips)
  {
    EntriesFit(Groups(conf));
  }

  /** The live map points every configured key, and no other, at its entry's number. */
  ghost predicate SettledMap(vipMap: map<VipKey, VipMeta>, groups: seq<seq<VipKey>>, target: seq<int>) {
    && |target| == |groups| && Distinct(target)
    && (forall key :: key in vipMap ==> Owner(groups, key) != UNSET)
    && (forall key :: key in vipMap ==> vipMap[key].vipNum == target[Owner(groups, key)])
    && (forall i :: 0 <= i < |groups| ==> HasLiveKey(vipMap, groups, i))
  }

  ghost predicate HasLiveKey(vipMap: map<VipKey, VipMeta>, groups: seq<seq<VipKey>>, i: int) {
    exists key :: key in vipMap && Owner(groups, key) == i
  }

  lemma SettledMapSettled(vipMap: map<VipKey, VipMeta>, groups: seq<seq<VipKey>>, target: seq<int>, baseline: seq<Baseline>)
    requires SettledMap(vipMap, groups, target) && Enumerates(baseline, vipMap)
    ensures VipAlloc.Settled(groups, baseline, target)
  {
    forall i | 0 <= i < |groups| ensures VipAlloc.InLiveMap(groups, baseline, i) {
      assert HasLiveKey(vipMap, groups, i);
      var key :| key in vipMap && Owner(groups, key) == i;
      assert Listed(baseline, key);
    }
  }

  lemma SettledMapStays(vipMap: map<VipKey, VipMeta>, groups: seq<seq<VipKey>>, baseline: seq<Baseline>, nums: seq<int>, release: seq<nat>)
    requires Enumerates(baseline, vipMap)
    requires forall target :: VipAlloc.Settled(groups, baseline, target) ==> nums == target && release == []
    ensures forall target :: SettledMap(vipMap, groups, target) ==> nums == target && release == []
  {
    forall target | SettledMap(vipMap, groups, target) ensures nums == target && release == [] {
      SettledMapSettled(vipMap, groups, target, baseline);
    }
  }

  ghost function Nums(c: Run): seq<int> {
    seq(|c.metas|, j requires 0 <= j < |c.metas| => c.metas[j].vipNum)
  }

  /** Fixpoint: where a successful run arrives, the same configuration finds itself settled. */
  lemma ArrivedIsSettled(c: Run, s: Kernel)
    requires ValidRun(c) && Arrived(c, s)
    requires forall i :: 0 <= i < |c.groups| ==> c.groups[i] != []
    ensures SettledMap(s.vipMap, c.groups, Nums(c))
  {
    forall i | 0 <= i < |c.groups| ensures HasLiveKey(s.vipMap, c.groups, i) {
      OwnerIs(c.groups, c.groups[i][0], i);
    }
  }

  /** Any state a run leaves behind, finished or not, is one a later run can start from. */
  lemma SoundIsRestartable(c: Run, s: Kernel, conf: Conf)
    requires ValidRun(c) && Sound(c, s)
    requires forall i :: 0 <= i < |conf.vips| ==> conf.vips[i].keys != []
    requires TotalKeys(Groups(conf)) <= c.maxVips
    ensures ValidStart(conf, c.maxVips, s) && |s.fwd| == c.maxVips * c.tableSize && WellFormed(s.acl)
  {
    forall key | key in s.vipMap ensures s.vipMap[key].vipNum < c.maxVips {
      assert KeyRouted(c, s, key);
    }
  }

  ghost predicate ReleasesUnused(c: Run, release: seq<nat>) {
    && (forall i :: 0 <= i < |release| ==> release[i] < c.maxVips)
    && (forall i, j :: 0 <= i < |release| && 0 <= j < |c.metas| ==> c.metas[j].vipNum != release[i])
  }

  /** Where a run that reports success ends, whatever it had to retry: the live map is the
      configuration, tables and backends are in place, released blocks are empty, and each trie
      holds the new rules and the old ones it had not listed. */
  ghost predicate Finished(c: Run, conf: Conf, maxBackends: nat, release: seq<nat>, s: Kernel, listed: seq<seq<Prefix>>)
    requires ValidRun(c)
  {
    && Arrived(c, s)
    && WellFormed(s.acl) && s.acl.enabled == c.goal.enabled && s.acl.lists == c.goal.lists
    && TriesLeft(c, s.acl, listed, TRIES)
    && c.wanted <= s.backends.Keys
    && (forall id :: id in c.wanted ==> s.backends[id] in conf.backends && s.backends[id].id == id)
    && (forall id :: 1 <= id < maxBackends && id in s.backends ==> id in c.wanted)
    && (forall i, r: nat :: 0 <= i < |release| && r < c.tableSize ==> Row(s, c.tableSize, release[i], r) == NO_BACKEND)
  }

  lemma TableServes(g: FwdGen.Scorer, conf: Conf, vip: ConfVip, tableSize: nat, block: seq<nat>, row: nat)
    requires FwdGen.IsBlock(g, vip.seed, tableSize, Resolve(conf, vip), block) && row < tableSize
    ensures RowServes(g, conf, vip, row, block[row])
  {
    var own := Resolve(conf, vip);
    ResolvesMembers(conf, vip);
    assert FwdGen.Elected(g, vip.seed, row, FwdGen.EqualWeights(own), own, block[row]);
  }

  lemma FinishedKey(g: FwdGen.Scorer, conf: Conf, c: Run, nums: seq<int>, s: Kernel, j: nat, key: VipKey)
    requires |nums| == |conf.vips| && |conf.rules| == TRIES && forall i :: 0 <= i < |nums| ==> 0 <= nums[i]
    requires c == PlannedRun(g, conf, c.maxVips, c.tableSize, c.base, nums, c.order) && ValidRun(c) && Arrived(c, s)
    requires j < |conf.vips| && key in conf.vips[j].keys
    ensures Owner(c.groups, key) == j && key in s.vipMap && s.vipMap[key].vipNum == nums[j]
    ensures ValueServes(g, conf, c.tableSize, s, conf.vips[j], s.vipMap[key])
  {
    OwnerIs(c.groups, key, j);
    forall row: nat | row < c.tableSize ensures RowServes(g, conf, conf.vips[j], row, Row(s, c.tableSize, s.vipMap[key].vipNum, row)) {
      TableServes(g, conf, conf.vips[j], c.tableSize, c.tables[j], row);
    }
  }

  /** A run that reports success leaves maps that serve the configuration. */
  lemma FinishedServes(g: FwdGen.Scorer, conf: Conf, c: Run, nums: seq<int>, maxBackends: nat, release: seq<nat>, s: Kernel, listed: seq<seq<Prefix>>)
    requires |nums| == |conf.vips| && |conf.rules| == TRIES && forall i :: 0 <= i < |nums| ==> 0 <= nums[i]
    requires c == PlannedRun(g, conf, c.maxVips, c.tableSize, c.base, nums, c.order) && ValidRun(c)
    requires Finished(c, conf, maxBackends, release, s, listed)
    ensures Serves(g, conf, c.tableSize, maxBackends, s)
  {
    forall key | key in s.vipMap ensures IsConfigured(conf, key) {
      assert key in conf.vips[Owner(c.groups, key)].keys;
    }
    forall j, key | 0 <= j < |conf.vips| && key in conf.vips[j].keys ensures KeyServes(g, conf, c.tableSize, s, conf.vips[j], key) {
      FinishedKey(g, conf, c, nums, s, j, key);
    }
    FinishedBlocks(g, conf, c, nums, s);
    FinishedSlots(conf, c, maxBackends, s);
  }

  lemma FinishedBlocks(g: FwdGen.Scorer, conf: Conf, c: Run, nums: seq<int>, s: Kernel)
    requires |nums| == |conf.vips| && |conf.rules| == TRIES && forall i :: 0 <= i < |nums| ==> 0 <= nums[i]
    requires c == PlannedRun(g, conf, c.maxVips, c.tableSize, c.base, nums, c.order) && ValidRun(c) && Arrived(c, s)
    ensures BlocksApartIn(conf, s)
  {
    DistinctBlocks(c, nums);
    forall i, j, key, key' | 0 <= i < |conf.vips| && 0 <= j < |conf.vips| && key in conf.vips[i].keys && key' in conf.vips[j].keys
      ensures NumOf(s, key) == NumOf(s, key') <==> i == j
    {
      FinishedKey(g, conf, c, nums, s, i, key);
      FinishedKey(g, conf, c, nums, s, j, key');
    }
  }

  lemma DistinctBlocks(c: Run, nums: seq<int>)
    requires ValidRun(c) && |nums| == |c.metas| && forall i :: 0 <= i < |nums| ==> nums[i] == c.metas[i].vipNum
    ensures forall i, j :: 0 <= i < |nums| && 0 <= j < |nums| ==> (nums[i] == nums[j] <==> i == j)
  {
  }

  lemma FinishedSlots(conf: Conf, c: Run, maxBackends: nat, s: Kernel)
    requires c.wanted == IdsOf(conf.backends) && c.wanted <= s.backends.Keys
    requires forall id :: id in c.wanted ==> s.backends[id] in conf.backends && s.backends[id].id == id
    requires forall id :: 1 <= id < maxBackends && id in s.backends ==> id in c.wanted
    ensures forall k :: 0 <= k < |conf.backends| ==> SlotServes(conf, s, conf.backends[k].id)
    ensures forall id :: 1 <= id < maxBackends && id in s.backends ==> SlotServes(conf, s, id)
  {
    forall k | 0 <= k < |conf.backends| ensures SlotServes(conf, s, conf.backends[k].id) {
      assert conf.backends[k].id in c.wanted;
    }
  }

  /** Hitless filtering: between two enabled configurations, a source whose verdict is the
      same before and after gets that verdict from every recorded state. */
  lemma VerdictHolds(c: Run, s: Kernel, family: nat, source: seq<bool>)
    requires ValidRun(c) && Sound(c, s)
    requires c.base.acl.enabled && c.goal.enabled && BitsCover(c.base.acl) && BitsCover(c.goal)
    requires AclCheck(c.base.acl, family, source) == AclCheck(c.goal, family, source)
    ensures AclCheck(s.acl, family, source) == AclCheck(c.goal, family, source)
  {
    VerdictSteady(s.acl, c.base.acl, c.goal, family, source);
  }

  lemma StartSound(c: Run)
    requires ValidRun(c) && |c.base.vipMap| <= c.maxVips
    ensures Chronicle(c, [c.base], c.base)
  {
    AclStart(c, c.base);
    FrontSound(c, c.base);
  }

  lemma RunFinishes(c: Run, conf: Conf, maxBackends: nat, release: seq<nat>, s0: Kernel, s: Kernel, listed: seq<seq<Prefix>>)
    requires ValidRun(c) && Arrived(c, s) && WellFormed(s.acl)
    requires s == s0.(acl := s.acl) && s.acl.enabled == c.goal.enabled && s.acl.lists == c.goal.lists
    requires TriesLeft(c, s.acl, listed, TRIES)
    requires c.wanted <= s0.backends.Keys && forall id :: id in c.wanted ==> s0.backends[id] in conf.backends && s0.backends[id].id == id
    requires forall id :: 1 <= id < maxBackends && id in s0.backends ==> id in c.wanted
    requires forall i, r: nat :: 0 <= i < |release| && r < c.tableSize ==> Row(s0, c.tableSize, release[i], r) == NO_BACKEND
    ensures Finished(c, conf, maxBackends, release, s, listed)
  {
    assert forall v: nat, r: nat :: Row(s, c.tableSize, v, r) == Row(s0, c.tableSize, v, r);
  }

  /** What a run that reports success leaves: safe states up to the last write, a sound final
      state that is where the run was to end, list bits that skip a rule exactly when a listing
      was cut short on a trie to be emptied, and the configured lists exactly when none was cut
      short before a rule that had to go. */
  ghost predicate Completed(c: Run, conf: Conf, maxBackends: nat, release: seq<nat>, history: seq<Kernel>, k: Kernel, listed: seq<seq<Prefix>>)
    requires ValidRun(c)
  {
    && Recorded(c, history, k)
    && Finished(c, conf, maxBackends, release, k, listed)
    && (BitsCover(k.acl) <==> NothingMissed(c, listed))
    && (k.acl == c.goal <==> StaleListed(c, listed))
  }

  lemma CompletedBy(c: Run, conf: Conf, maxBackends: nat, release: seq<nat>, history: seq<Kernel>, s0: Kernel, op: Op, k: Kernel,
                    listed: seq<seq<Prefix>>)
    requires ValidRun(c) && Chronicle(c, history, s0) && StepBy(c, s0, op, k)
    requires Sound(c, k) && Finished(c, conf, maxBackends, release, k, listed)
    requires BitsCover(k.acl) <==> NothingMissed(c, listed)
    ensures Completed(c, conf, maxBackends, release, history + [k], k, listed)
  {
    assert (history + [k])[..|history|] == history;
    StepwiseExtends(c, history, s0, op, k);
    TriesConvergeExactly(c, k.acl, listed);
  }

  // ---- the maps -------------------------------------------------------------------------------

  class Maps {
    const maxVips: nat
    const tableSize: nat
    const maxBackends: nat
    const maxAcl: nat
    var k: Kernel
    ghost var history: seq<Kernel>
    ghost var faults: nat

    constructor (maxVips: nat, tableSize: nat, maxBackends: nat, maxAcl: nat, k: Kernel)
      ensures this.maxVips == maxVips && this.tableSize == tableSize && this.maxBackends == maxBackends && this.maxAcl == maxAcl
      ensures this.k == k && this.history == [k] && this.faults == 0
    {
      this.maxVips, this.tableSize, this.maxBackends, this.maxAcl := maxVips, tableSize, maxBackends, maxAcl;
      this.k, this.history, this.faults := k, [k], 0;
    }

    /** The run is recorded up to now. */
    ghost predicate Kept(c: Run)
      reads this
    {
      && ValidRun(c) && TablesWanted(c) && c.maxVips == maxVips && c.tableSize == tableSize && |c.base.vipMap| <= c.maxVips
      && Chronicle(c, history, k)
    }

    /** One map operation: it happens, and is seen by packets from then on, or it fails. */
    method Perform(op: Op) returns (ok: bool)
      requires Fits(k, tableSize, op)
      modifies this
      ensures ok ==> k == Done(old(k), tableSize, op) && history == old(history) + [k] && faults == old(faults)
      ensures !ok ==> k == old(k) && history == old(history) && faults > old(faults)
    {
      ok := *;
      if ok {
        k := Done(k, tableSize, op);
        history := history + [k];
      } else {
        faults := faults + 1;
      }
    }

    /** One operation of the run: allowed, and safe to be seen. */
    method Write(ghost c: Run, op: Op) returns (ok: bool)
      requires Kept(c) && Fits(k, tableSize, op) && Allowed(c, op) && Safe(c, Done(k, tableSize, op))
      modifies this
      ensures Kept(c)
      ensures ok ==> k == Done(old(k), tableSize, op) && faults == old(faults)
      ensures !ok ==> k == old(k) && faults > old(faults)
    {
      ghost var next := Done(k, tableSize, op);
      ChronicleExtends(c, history, k, op, next);
      ok := Perform(op);
    }

    /** An operation that writes none of the modelled maps (interfaces, lookups) may fail too. */
    method Attempt() returns (ok: bool)
      modifies this`faults
      ensures ok ==> faults == old(faults)
      ensures !ok ==> faults > old(faults)
    {
      ok := *;
      if !ok {
        faults := faults + 1;
      }
    }

    /** Reads the live map key by key, in whatever order the kernel lists it. */
    method ReadVipBaseline() returns (ok: bool, baseline: seq<Baseline>)
      modifies this`faults
      ensures ok ==> Enumerates(baseline, k.vipMap) && |baseline| == |k.vipMap| <= maxVips
      ensures ok ==> forall b :: 0 <= b < |baseline| ==> baseline[b].num < maxVips
      ensures faults >= old(faults) && (ok ==> faults == old(faults))
      ensures !ok ==> faults > old(faults) || |k.vipMap| > maxVips || exists key :: key in k.vipMap && k.vipMap[key].vipNum >= maxVips
    {
      baseline := [];
      var rest := k.vipMap.Keys;
      while rest != {}
        invariant faults == old(faults)
        invariant rest <= k.vipMap.Keys && |baseline| + |rest| == |k.vipMap| && |baseline| <= maxVips
        invariant DistinctBaseline(baseline)
        invariant forall b :: 0 <= b < |baseline| ==>
                    && baseline[b].key in k.vipMap && baseline[b].key !in rest
                    && baseline[b].num == k.vipMap[baseline[b].key].vipNum < maxVips
        invariant forall key :: key in k.vipMap && key !in rest ==> Listed(baseline, key)
        decreases |rest|
      {
        ok := Attempt();
        if !ok {
          return;
        }
        if |baseline| == maxVips {
          return false, baseline;
        }
        var key :| key in rest;
        if k.vipMap[key].vipNum >= maxVips {
          return false, baseline;
        }
        ghost var before := baseline;
        baseline := baseline + [Baseline(key, k.vipMap[key].vipNum)];
        rest := rest - {key};
        assert baseline[|before|].key == key;
        forall other | other in k.vipMap && other !in rest ensures Listed(baseline, other) {
          if other != key {
            var b :| 0 <= b < |before| && before[b].key == other;
            assert baseline[b].key == other;
          }
        }
      }
      ok := true;
    }

    method RemoveKey(ghost c: Run, key: VipKey) returns (ok: bool)
      requires Kept(c) && Front(c, k) && k.acl == c.base.acl && Owner(c.groups, key) == UNSET
      modifies this
      ensures Kept(c) && Front(c, k)
      ensures ok ==> k == old(k).(vipMap := old(k).vipMap - {key}) && faults == old(faults)
      ensures !ok ==> k == old(k) && faults > old(faults)
    {
      PruneStep(c, k, key);
      ok := Write(c, DeleteKey(key));
    }

    /** Deletes every baseline key that no configured entry holds. */
    method RemoveStaleVipKeys(ghost c: Run, baseline: seq<Baseline>, groups: seq<seq<VipKey>>) returns (ok: bool)
      requires Kept(c) && groups == c.groups && k == c.base && Enumerates(baseline, k.vipMap)
      modifies this
      ensures Kept(c) && Front(c, k) && k.acl == old(k.acl)
      ensures ok ==> forall key :: key in k.vipMap <==> key in c.base.vipMap && Owner(groups, key) != UNSET
      ensures ok ==> faults == old(faults)
      ensures !ok ==> faults > old(faults)
    {
      AclStart(c, k);
      for i := 0 to |baseline|
        invariant Kept(c) && Front(c, k) && k.acl == c.base.acl && faults == old(faults)
        invariant PrunedUpTo(k.vipMap, c.base.vipMap, groups, baseline, i)
      {
        PrunedStep(k.vipMap, c.base.vipMap, groups, baseline, i);
        var owner := VipAlloc.FindOwner(groups, baseline[i].key);
        if owner != UNSET {
          continue;
        }
        ok := RemoveKey(c, baseline[i].key);
        if !ok {
          return;
        }
      }
      PrunedAll(k.vipMap, c.base.vipMap, groups, baseline);
      ok := true;
    }

    /** Lists a trie's rules. An error while listing is taken for the end of the list. */
    method ListTrie(t: nat) returns (existing: seq<Prefix>)
      requires t < |k.acl.tries|
      modifies this`faults
      ensures faults >= old(faults)
      ensures forall p :: p in existing ==> p in k.acl.tries[t]
      ensures faults == old(faults) && |k.acl.tries[t]| <= maxAcl ==> forall p :: p in k.acl.tries[t] ==> p in existing
    {
      existing := [];
      var rest := k.acl.tries[t];
      while |existing| < maxAcl && rest != {}
        invariant faults == old(faults)
        invariant rest <= k.acl.tries[t] && |existing| + |rest| == |k.acl.tries[t]|
        invariant forall p :: p in k.acl.tries[t] <==> p in existing || p in rest
        decreases |rest|
      {
        var more := Attempt();
        if !more {
          return;
        }
        var p :| p in rest;
        existing := existing + [p];
        rest := rest - {p};
      }
    }

    /** Brings one trie to its rule list: inserts everything wanted, then deletes what it had
        listed and is not wanted. */
    method ReconcileTrie(ghost c: Run, t: nat, rules: seq<Prefix>) returns (ok: bool, ghost listed: seq<Prefix>)
      requires Kept(c) && BitsCover(c.goal) && Front(c, k) && AclWork(c, k.acl)
      requires t < TRIES && k.acl.tries[t] == c.base.acl.tries[t] && c.goal.tries[t] == set p | p in rules
      modifies this
      ensures Kept(c) && Front(c, k) && AclWork(c, k.acl)
      ensures k.vipMap == old(k.vipMap) && OneTrie(c, old(k.acl), k.acl, t, maxAcl, ok)
      ensures faults >= old(faults)
      ensures !ok ==> faults > old(faults) || Overfull(c, k.acl, maxAcl, t)
      ensures ok ==> forall p :: p in k.acl.tries[t] <==> p in c.goal.tries[t] || (p in c.base.acl.tries[t] && p !in listed)
      ensures ok && faults == old(faults) && |c.base.acl.tries[t]| <= maxAcl ==> forall p :: p in c.base.acl.tries[t] ==> p in listed
    {
      var existing := ListTrie(t);
      listed := existing;
      ok := InsertRules(c, t, rules);
      if ok {
        ghost var all := k.acl.tries[t];
        ok := RemoveUnwanted(c, t, rules, existing);
        SubsetCount(k.acl.tries[t], all);
      }
    }

    /** Inserts or deletes one rule, between the old rules and the new. */
    method WriteRule(ghost c: Run, op: Op) returns (ok: bool)
      requires Kept(c) && BitsCover(c.goal) && Front(c, k) && AclWork(c, k.acl)
      requires (op.InsertRule? || op.DeleteRule?) && Allowed(c, op)
      requires Between(Done(k, tableSize, op).acl.tries[op.trie], c.base.acl.tries[op.trie], c.goal.tries[op.trie])
      modifies this
      ensures Kept(c) && Front(c, k) && AclWork(c, k.acl)
      ensures ok ==> k == Done(old(k), tableSize, op) && faults == old(faults)
      ensures !ok ==> k == old(k) && faults > old(faults)
    {
      TrieStep(c, k, op);
      ok := Write(c, op);
    }

    method InsertRules(ghost c: Run, t: nat, rules: seq<Prefix>) returns (ok: bool)
      requires Kept(c) && BitsCover(c.goal) && Front(c, k) && AclWork(c, k.acl)
      requires t < TRIES && k.acl.tries[t] == c.base.acl.tries[t] && c.goal.tries[t] == set p | p in rules
      modifies this
      ensures Kept(c) && Front(c, k) && AclWork(c, k.acl)
      ensures k.vipMap == old(k.vipMap) && forall u :: 0 <= u < TRIES && u != t ==> k.acl.tries[u] == old(k.acl.tries[u])
      ensures faults >= old(faults)
      ensures ok ==> faults == old(faults) && k.acl.tries[t] == c.base.acl.tries[t] + c.goal.tries[t]
      ensures !ok ==> faults > old(faults) || Overfull(c, k.acl, maxAcl, t)
      ensures |c.base.acl.tries[t]| <= maxAcl ==> |k.acl.tries[t]| <= maxAcl
    {
      for i := 0 to |rules|
        invariant Kept(c) && Front(c, k) && AclWork(c, k.acl) && faults == old(faults) && k.vipMap == old(k.vipMap)
        invariant Inserting(old(k.acl), k.acl, t, rules, i, maxAcl)
      {
        InsertStep(old(k.acl), k.acl, c.base.acl.tries[t], c.goal.tries[t], t, rules, i, maxAcl);
        if rules[i] !in k.acl.tries[t] && |k.acl.tries[t]| >= maxAcl {
          return false;
        }
        ok := WriteRule(c, InsertRule(t, rules[i]));
        if !ok {
          return;
        }
      }
      assert rules[..|rules|] == rules;
      ok := true;
    }

    method RemoveUnwanted(ghost c: Run, t: nat, rules: seq<Prefix>, existing: seq<Prefix>) returns (ok: bool)
      requires Kept(c) && BitsCover(c.goal) && Front(c, k) && AclWork(c, k.acl)
      requires t < TRIES && c.goal.tries[t] == (set p | p in rules) && k.acl.tries[t] == c.base.acl.tries[t] + c.goal.tries[t]
      modifies this
      ensures Kept(c) && Front(c, k) && AclWork(c, k.acl)
      ensures k.vipMap == old(k.vipMap) && forall u :: 0 <= u < TRIES && u != t ==> k.acl.tries[u] == old(k.acl.tries[u])
      ensures ok ==> faults == old(faults)
      ensures !ok ==> faults > old(faults)
      ensures ok ==> forall p :: p in k.acl.tries[t] <==> p in c.goal.tries[t] || (p in c.base.acl.tries[t] && p !in existing)
      ensures k.acl.tries[t] <= old(k.acl.tries[t])
    {
      ghost var base, goal := c.base.acl.tries[t], c.goal.tries[t];
      for i := 0 to |existing|
        invariant Kept(c) && Front(c, k) && AclWork(c, k.acl) && faults == old(faults)
        invariant k.vipMap == old(k.vipMap) && forall u :: 0 <= u < TRIES && u != t ==> k.acl.tries[u] == old(k.acl.tries[u])
        invariant Trimmed(k.acl.tries[t], base, goal, existing[..i]) && k.acl.tries[t] <= old(k.acl.tries[t])
      {
        TrimStep(k.acl.tries[t], base, goal, existing, i);
        var wanted := RuleWanted(rules, existing[i]);
        if !wanted {
          ok := WriteRule(c, DeleteRule(t, existing[i]));
          if !ok {
            return;
          }
        }
      }
      assert existing[..|existing|] == existing;
      ok := true;
    }

    method WriteBackends(ghost c: Run, backends: seq<Backend>) returns (ok: bool)
      requires Kept(c) && Front(c, k) && c.wanted == IdsOf(backends)
      modifies this
      ensures Kept(c) && Front(c, k)
      ensures k == old(k).(backends := k.backends)
      ensures ok ==> k.backends.Keys == old(k.backends.Keys) + IdsOf(backends)
      ensures ok ==> forall id :: id in IdsOf(backends) ==> k.backends[id] in backends && k.backends[id].id == id
      ensures ok ==> faults == old(faults)
      ensures !ok ==> faults > old(faults)
    {
      for i := 0 to |backends|
        invariant Kept(c) && Front(c, k) && faults == old(faults)
        invariant k == old(k).(backends := k.backends)
        invariant Populated(k.backends, old(k.backends), backends, i)
      {
        PopulatedStep(k.backends, old(k.backends), backends, i);
        BackendStep(c, k, backends[i]);
        ok := Write(c, PutBackend(backends[i]));
        if !ok {
          return;
        }
      }
      assert backends[..|backends|] == backends;
      ok := true;
    }

    /** Writes one block row by row: first as a batch, which may stop anywhere, then, if the
        batch did not succeed, from the start again. */
    method WriteFwdBlock(ghost c: Run, num: nat, values: seq<nat>) returns (ok: bool)
      requires Kept(c) && num < maxVips && |values| == tableSize && BlockSafe(c, k, num, values) && BlockAllowed(c, num, values)
      modifies this
      ensures Kept(c) && PartialBlock(tableSize, old(k), num, values, k)
      ensures ok ==> forall r: nat :: r < tableSize ==> Row(k, tableSize, num, r) == values[r]
      ensures faults >= old(faults)
      ensures !ok ==> faults > old(faults)
    {
      ghost var s0 := k;
      ok := WriteRows(c, s0, num, values);
      if ok {
        ok := Attempt();
        if ok {
          return;
        }
      }
      ok := WriteRows(c, s0, num, values);
    }

    method WriteRows(ghost c: Run, ghost s0: Kernel, num: nat, values: seq<nat>) returns (ok: bool)
      requires Kept(c) && num < maxVips && |values| == tableSize && BlockSafe(c, s0, num, values) && BlockAllowed(c, num, values)
      requires PartialBlock(tableSize, s0, num, values, k)
      modifies this
      ensures Kept(c) && PartialBlock(tableSize, s0, num, values, k)
      ensures ok ==> forall r: nat :: r < tableSize ==> Row(k, tableSize, num, r) == values[r]
      ensures ok ==> faults == old(faults)
      ensures !ok ==> faults > old(faults)
    {
      for row := 0 to tableSize
        invariant Kept(c) && PartialBlock(tableSize, s0, num, values, k)
        invariant forall r: nat :: r < row ==> Row(k, tableSize, num, r) == values[r]
        invariant faults == old(faults)
      {
        ok := WriteRow(c, s0, num, row, values);
        if !ok {
          return;
        }
      }
      ok := true;
    }

    method WriteRow(ghost c: Run, ghost s0: Kernel, num: nat, row: nat, values: seq<nat>) returns (ok: bool)
      requires Kept(c) && num < maxVips && row < tableSize == |values| && BlockSafe(c, s0, num, values) && BlockAllowed(c, num, values)
      requires PartialBlock(tableSize, s0, num, values, k)
      modifies this
      ensures Kept(c) && PartialBlock(tableSize, s0, num, values, k)
      ensures ok ==> forall r: nat :: r < tableSize ==> Row(k, tableSize, num, r) == if r == row then values[row] else Row(old(k), tableSize, num, r)
      ensures ok ==> faults == old(faults)
      ensures !ok ==> faults > old(faults)
    {
      NowSafe(c, history, k);
      CellInRange(num, row, maxVips, tableSize);
      CellWrite(tableSize, s0, num, values, k, row);
      ok := Write(c, PutRow(num, row, values[row]));
    }

    /** Generates and writes an entry's block, then points its keys at it. */
    method WriteVip(ghost c: Run, g: FwdGen.Scorer, conf: Conf, ghost n: nat, entry: nat, num: nat, ghost pub: set<VipKey>)
      returns (ok: bool)
      requires Kept(c) && n < |c.order| && entry == c.order[n] && entry < |conf.vips| && num == Num(c, n)
      requires c.groups == Groups(conf) && Describes(c, g, conf, entry, num)
      requires Middle(c, k, n, false, pub) && PublishedUpTo(c, n, pub)
      modifies this
      ensures ok ==> Middle(c, k, n + 1, false, pub + KeysOf(conf.vips[entry].keys)) && k.acl == old(k.acl) && k.backends == old(k.backends)
      ensures Kept(c)
      ensures faults >= old(faults)
      ensures !ok ==> faults > old(faults)
    {
      ok := Attempt();
      if !ok {
        return;
      }
      ok := WriteTable(c, g, conf, n, entry, num, pub);
      if !ok {
        return;
      }
      var vip := conf.vips[entry];
      ok := PublishKeys(c, n + 1, entry, vip.keys, VipMeta(num, vip.flags, vip.hashKey), pub);
    }

    /** Generates an entry's table and writes it into its block, which no live key refers to. */
    method WriteTable(ghost c: Run, g: FwdGen.Scorer, conf: Conf, ghost n: nat, entry: nat, num: nat, ghost pub: set<VipKey>)
      returns (ok: bool)
      requires Kept(c) && n < |c.order| && entry == c.order[n] && entry < |conf.vips| && num == Num(c, n)
      requires c.groups == Groups(conf) && Describes(c, g, conf, entry, num)
      requires Middle(c, k, n, false, pub) && PublishedUpTo(c, n, pub)
      modifies this
      ensures ok ==> Middle(c, k, n + 1, false, pub) && k.acl == old(k.acl) && k.backends == old(k.backends)
      ensures Kept(c)
      ensures faults >= old(faults)
      ensures !ok ==> faults > old(faults)
    {
      var vip := conf.vips[entry];
      var members := ResolveMembers(conf, vip);
      var block := new nat[tableSize];
      FwdGen.FwdGenBlock(g, vip.seed, members, block);
      FwdGen.OrderIndependent(g, vip.seed, tableSize, members, members, block[..], c.tables[entry]);
      StartBlock(c, k, n, pub);
      TableBlock(c, k, n, pub);
      ghost var s0 := k;
      ok := WriteFwdBlock(c, num, block[..]);
      if ok {
        WriteBlockPhase(c, s0, k, n, pub);
      }
    }

    method PublishKey(ghost c: Run, ghost n: nat, ghost entry: nat, key: VipKey, meta: VipMeta, ghost done: set<VipKey>) returns (ok: bool)
      requires Kept(c) && n <= |c.order| && entry in c.order[..n] && entry < |c.groups|
      requires key in c.groups[entry] && c.metas[entry] == meta && Middle(c, k, n, false, done)
      modifies this
      ensures Kept(c) && k.acl == old(k.acl) && k.backends == old(k.backends)
      ensures ok ==> Middle(c, k, n, false, done + {key}) && faults == old(faults)
      ensures !ok ==> faults > old(faults)
    {
      PublishStep(c, k, n, done, entry, key, meta);
      ok := Write(c, PutKey(key, meta));
    }

    method PublishKeys(ghost c: Run, ghost n: nat, entry: nat, keys: seq<VipKey>, meta: VipMeta, ghost pub: set<VipKey>) returns (ok: bool)
      requires Kept(c) && n <= |c.order| && entry in c.order[..n] && entry < |c.groups|
      requires c.groups[entry] == keys && c.metas[entry] == meta && Middle(c, k, n, false, pub)
      modifies this
      ensures Kept(c) && k.acl == old(k.acl) && k.backends == old(k.backends)
      ensures ok ==> Middle(c, k, n, false, pub + KeysOf(keys))
      ensures ok ==> faults == old(faults)
      ensures !ok ==> faults > old(faults)
    {
      KeysOfPrefixes(keys, pub);
      for i := 0 to |keys|
        invariant Kept(c) && Middle(c, k, n, false, pub + KeysOf(keys[..i]))
        invariant k.acl == old(k.acl) && k.backends == old(k.backends) && faults == old(faults)
      {
        ok := PublishKey(c, n, entry, keys[i], meta, pub + KeysOf(keys[..i]));
        if !ok {
          return;
        }
      }
      ok := true;
    }

    method WriteVips(ghost c: Run, g: FwdGen.Scorer, conf: Conf, nums: seq<int>, order: seq<nat>) returns (ok: bool)
      requires Kept(c) && c.order == order && c.groups == Groups(conf) && |nums| == |conf.vips|
      requires forall j :: 0 <= j < |nums| ==> 0 <= nums[j] && Describes(c, g, conf, j, nums[j])
      requires Middle(c, k, 0, false, {})
      modifies this
      ensures ok ==> Back(c, k) && k.acl == old(k.acl) && k.backends == old(k.backends)
      ensures Kept(c)
      ensures faults >= old(faults)
      ensures !ok ==> faults > old(faults)
    {
      ghost var pub := {};
      for t := 0 to |order|
        invariant Kept(c) && Middle(c, k, t, false, pub) && PublishedUpTo(c, t, pub)
        invariant k.acl == old(k.acl) && k.backends == old(k.backends) && faults >= old(faults)
      {
        PublishedStep(c, conf, t, pub);
        ok := WriteVip(c, g, conf, t, order[t], nums[order[t]], pub);
        if !ok {
          return;
        }
        pub := pub + KeysOf(conf.vips[order[t]].keys);
      }
      AllPublishedArrives(c, k, pub);
      ok := true;
    }

    method ReleaseBlock(ghost c: Run, num: nat) returns (ok: bool)
      requires Kept(c) && Back(c, k) && num < maxVips && forall j :: 0 <= j < |c.metas| ==> c.metas[j].vipNum != num
      modifies this
      ensures Kept(c) && Back(c, k)
      ensures k == old(k).(fwd := k.fwd) && ZeroedMore(tableSize, old(k), k)
      ensures ok ==> Zeroed(k, tableSize, num)
      ensures faults >= old(faults)
      ensures !ok ==> faults > old(faults)
    {
      ghost var s0 := k;
      var zeros := seq(tableSize, _ => NO_BACKEND);
      SpareBlock(c, s0, num, zeros);
      ok := WriteFwdBlock(c, num, zeros);
      PartialBlockBack(c, s0, k, num, zeros);
    }

    /** Zeroes the blocks that nothing refers to any more. */
    method ReleaseStaleVipBlocks(ghost c: Run, release: seq<nat>) returns (ok: bool)
      requires Kept(c) && Back(c, k)
      requires forall i :: 0 <= i < |release| ==> release[i] < maxVips
      requires forall i, j :: 0 <= i < |release| && 0 <= j < |c.metas| ==> c.metas[j].vipNum != release[i]
      modifies this
      ensures Kept(c) && Back(c, k) && k.acl == old(k.acl) && k.backends == old(k.backends)
      ensures ok ==> forall i, r: nat :: 0 <= i < |release| && r < tableSize ==> Row(k, tableSize, release[i], r) == NO_BACKEND
      ensures faults >= old(faults)
      ensures !ok ==> faults > old(faults)
    {
      for i := 0 to |release|
        invariant Kept(c) && Back(c, k) && k.acl == old(k.acl) && k.backends == old(k.backends) && faults >= old(faults)
        invariant forall j :: 0 <= j < i ==> Zeroed(k, tableSize, release[j])
      {
        ok := Attempt();
        if !ok {
          return;
        }
        ok := ReleaseBlock(c, release[i]);
        if !ok {
          return;
        }
      }
      assert forall j :: 0 <= j < |release| ==> Zeroed(k, tableSize, release[j]);
      ok := true;
    }

    /** Clears the slots of backends that the configuration no longer names. */
    method RetireStaleBackends(ghost c: Run, backends: seq<Backend>) returns (ok: bool)
      requires Kept(c) && Back(c, k) && c.wanted == IdsOf(backends)
      modifies this
      ensures Kept(c) && Back(c, k) && k == old(k).(backends := k.backends)
      ensures forall id :: id in k.backends ==> id in old(k.backends) && k.backends[id] == old(k.backends)[id]
      ensures ok ==> forall id :: 1 <= id < maxBackends && id in k.backends ==> id in c.wanted
      ensures ok ==> faults == old(faults)
      ensures !ok ==> faults > old(faults)
    {
      ghost var before := k.backends;
      var id := 1;
      while id < maxBackends
        invariant Kept(c) && Back(c, k) && k == old(k).(backends := k.backends) && faults == old(faults)
        invariant 1 <= id && RetiredUpTo(k.backends, before, c.wanted, id)
      {
        ok := RetireOne(c, backends, id, before);
        if !ok {
          return;
        }
        id := id + 1;
      }
      ok := true;
    }

    method RetireOne(ghost c: Run, backends: seq<Backend>, id: nat, ghost before: map<nat, Backend>) returns (ok: bool)
      requires Kept(c) && Back(c, k) && c.wanted == IdsOf(backends) && RetiredUpTo(k.backends, before, c.wanted, id)
      modifies this
      ensures Kept(c) && Back(c, k) && k == old(k).(backends := k.backends)
      ensures RetiredUpTo(k.backends, before, c.wanted, if ok then id + 1 else id)
      ensures ok ==> faults == old(faults)
      ensures !ok ==> faults > old(faults)
    {
      ok := true;
      if id in k.backends && FindBackend(backends, id) < 0 {
        RetireStep(c, k, id);
        ok := Write(c, ClearBackend(id));
      }
    }

    /** All four tries, under the union of the bits. */
    method ReconcileTries(ghost c: Run, rules: seq<seq<Prefix>>) returns (ok: bool, ghost listed: seq<seq<Prefix>>)
      requires Kept(c) && BitsCover(c.goal) && Front(c, k) && AclWork(c, k.acl)
      requires |rules| == TRIES && k.acl.tries == c.base.acl.tries
      requires forall t :: 0 <= t < TRIES ==> c.goal.tries[t] == set p | p in rules[t]
      modifies this
      ensures Kept(c) && Front(c, k) && AclWork(c, k.acl) && k.vipMap == old(k.vipMap)
      ensures ok ==> TriesLeft(c, k.acl, listed, TRIES)
      ensures faults >= old(faults)
      ensures !ok ==> faults > old(faults) || StillFull(c, k.acl, maxAcl)
      ensures TriesFit(c.base.acl, maxAcl) ==> TriesFit(k.acl, maxAcl) && (ok ==> AclRoom(c, maxAcl))
      ensures ok && faults == old(faults) && TriesFit(c.base.acl, maxAcl) ==> StaleListed(c, listed)
    {
      listed := [];
      for t := 0 to TRIES
        invariant Kept(c) && Front(c, k) && AclWork(c, k.acl) && k.vipMap == old(k.vipMap)
        invariant TriesDone(c, k.acl, listed, t, maxAcl, faults == old(faults)) && faults >= old(faults)
      {
        ghost var one;
        ghost var a, clean := k.acl, faults == old(faults);
        ok, one := ReconcileTrie(c, t, rules[t]);
        if !ok {
          return;
        }
        TriesDoneStep(c, a, k.acl, listed, one, t, maxAcl, clean, faults == old(faults));
        listed := listed + [one];
      }
      TriesDoneAll(c, k.acl, listed, maxAcl, faults == old(faults));
      ok := true;
    }

    /** Reads the live map and plans. Nothing is written. */
    method PlanRun(g: FwdGen.Scorer, conf: Conf) returns (ok: bool, baseline: seq<Baseline>, nums: seq<int>, plan: VipAlloc.Plan, ghost c: Run)
      requires |conf.rules| == TRIES && DisjointGroups(Groups(conf))
      requires |k.fwd| == maxVips * tableSize && WellFormed(k.acl)
      modifies this`faults
      ensures faults >= old(faults)
      ensures !ok ==> faults > old(faults) || !ValidStart(conf, maxVips, k)
      ensures ok ==> ValidStart(conf, maxVips, k)
      ensures ok ==> Enumerates(baseline, k.vipMap) && |k.vipMap| <= maxVips && |nums| == |conf.vips|
      ensures ok ==> VipAlloc.SafePlan(Groups(conf), baseline, maxVips, nums, plan)
      ensures ok ==> c == PlannedRun(g, conf, maxVips, tableSize, k, nums, plan.writeOrder)
      ensures ok ==> ValidRun(c) && TablesWanted(c) && ReleasesUnused(c, plan.release)
      ensures ok ==> forall target :: SettledMap(k.vipMap, Groups(conf), target) ==> nums == target && plan.release == []
    {
      nums, plan := [], VipAlloc.Plan([], []);
      c := *;
      ok, baseline := ReadVipBaseline();
      if !ok {
        return;
      }
      if ValidStart(conf, maxVips, k) {
        ValidStartIsValidInput(conf, maxVips, k, baseline);
      }
      var vipNums := new int[|conf.vips|];
      ghost var mid, claim, stages;
      ok, plan, mid, claim, stages := VipAlloc.Allocate(Groups(conf), baseline, maxVips, vipNums);
      nums := vipNums[..];
      if !ok {
        return;
      }
      c := PlannedRun(g, conf, maxVips, tableSize, k, nums, plan.writeOrder);
      PlanIsRun(g, conf, maxVips, tableSize, k, baseline, nums, plan);
      SettledMapStays(k.vipMap, Groups(conf), baseline, nums, plan.release);
    }

    /** The forwarding part: tables and keys in plan order, then releases and retirements. */
    method MoveVips(ghost c: Run, g: FwdGen.Scorer, conf: Conf, nums: seq<int>, plan: VipAlloc.Plan) returns (ok: bool)
      requires |conf.rules| == TRIES && |nums| == |conf.vips| && forall i :: 0 <= i < |nums| ==> 0 <= nums[i]
      requires c == PlannedRun(g, conf, maxVips, tableSize, c.base, nums, plan.writeOrder)
      requires Kept(c) && ReleasesUnused(c, plan.release)
      requires Front(c, k) && c.wanted <= k.backends.Keys
      requires forall key :: key in k.vipMap ==> Owner(c.groups, key) != UNSET
      modifies this
      ensures Kept(c)
      ensures ok ==> Back(c, k) && k.acl == old(k.acl)
      ensures ok ==> forall id :: id in k.backends ==> id in old(k.backends) && k.backends[id] == old(k.backends)[id]
      ensures ok ==> forall id :: 1 <= id < maxBackends && id in k.backends ==> id in c.wanted
      ensures ok ==> forall i, r: nat :: 0 <= i < |plan.release| && r < tableSize ==> Row(k, tableSize, plan.release[i], r) == NO_BACKEND
      ensures faults >= old(faults)
      ensures !ok ==> faults > old(faults)
    {
      FrontBecomesMiddle(c, k);
      ok := WriteVips(c, g, conf, nums, plan.writeOrder);
      if !ok {
        return;
      }
      ok := ReleaseStaleVipBlocks(c, plan.release);
      if !ok {
        return;
      }
      ghost var s0 := k;
      ok := RetireStaleBackends(c, conf.backends);
      assert forall v: nat, r: nat :: Row(k, tableSize, v, r) == Row(s0, tableSize, v, r);
    }

    /** The work before the first table: stale keys, list bits, tries, new backends. */
    method Prepare(ghost c: Run, conf: Conf, baseline: seq<Baseline>) returns (ok: bool, ghost listed: seq<seq<Prefix>>)
      requires Kept(c) && |conf.rules| == TRIES
      requires c.groups == Groups(conf) && c.goal == Goal(conf) && c.wanted == IdsOf(conf.backends)
      requires k == c.base && Enumerates(baseline, k.vipMap)
      modifies this
      ensures Kept(c)
      ensures ok ==> Front(c, k) && AclWork(c, k.acl) && TriesLeft(c, k.acl, listed, TRIES)
      ensures ok ==> c.wanted <= k.backends.Keys && forall id :: id in c.wanted ==> k.backends[id] in conf.backends && k.backends[id].id == id
      ensures ok ==> forall key :: key in k.vipMap ==> Owner(c.groups, key) != UNSET
      ensures faults >= old(faults)
      ensures !ok ==> faults > old(faults) || GaveUp(c, k.acl, maxAcl)
      ensures ok && TriesFit(c.base.acl, maxAcl) ==> AclRoom(c, maxAcl)
      ensures ok && faults == old(faults) && TriesFit(c.base.acl, maxAcl) ==> StaleListed(c, listed)
    {
      ok, listed := PrepareFilters(c, conf, baseline);
      if !ok {
        return;
      }
      ok := Attempt();  // interfaces: names resolved, tx_ports extended
      if !ok {
        return;
      }
      ok := WriteBackends(c, conf.backends);
    }

    /** Stale keys, list bits, tries. */
    method PrepareFilters(ghost c: Run, conf: Conf, baseline: seq<Baseline>) returns (ok: bool, ghost listed: seq<seq<Prefix>>)
      requires Kept(c) && |conf.rules| == TRIES && c.groups == Groups(conf) && c.goal == Goal(conf)
      requires k == c.base && Enumerates(baseline, k.vipMap)
      modifies this
      ensures Kept(c)
      ensures ok ==> Front(c, k) && AclWork(c, k.acl) && TriesLeft(c, k.acl, listed, TRIES)
      ensures ok ==> forall key :: key in k.vipMap ==> Owner(c.groups, key) != UNSET
      ensures faults >= old(faults)
      ensures !ok ==> faults > old(faults) || GaveUp(c, k.acl, maxAcl)
      ensures ok && TriesFit(c.base.acl, maxAcl) ==> AclRoom(c, maxAcl)
      ensures ok && faults == old(faults) && TriesFit(c.base.acl, maxAcl) ==> StaleListed(c, listed)
    {
      listed := [];
      GoalCovers(conf);
      ok := RemoveStaleVipKeys(c, baseline, Groups(conf));
      if !ok {
        return;
      }
      ok := WriteUnion(c, conf);
      if !ok {
        return;
      }
      ok, listed := ReconcileTries(c, conf.rules);
    }

    /** The first configuration write carries the union of the old and the new list bits. */
    method WriteUnion(ghost c: Run, conf: Conf) returns (ok: bool)
      requires Kept(c) && |conf.rules| == TRIES && c.goal == Goal(conf)
      requires Front(c, k) && k.acl == c.base.acl && BitsCover(c.goal)
      modifies this
      ensures Kept(c) && k.vipMap == old(k.vipMap)
      ensures ok ==> Front(c, k) && AclWork(c, k.acl) && k.acl.tries == c.base.acl.tries
      ensures ok ==> faults == old(faults)
      ensures !ok ==> faults > old(faults)
    {
      var oldLists := k.acl.lists;
      var union := seq(TRIES, t requires 0 <= t < TRIES => oldLists[t] || conf.rules[t] != []);
      UnionStep(c, k, union);
      ok := Write(c, PutConfig(conf.aclEnabled, union));
    }

    /** The last configuration write narrows the bits to the lists that are not empty. */
    method WriteNarrow(ghost c: Run, conf: Conf, ghost listed: seq<seq<Prefix>>) returns (ok: bool)
      requires Kept(c) && |conf.rules| == TRIES && c.goal == Goal(conf)
      requires Back(c, k) && AclWork(c, k.acl) && TriesLeft(c, k.acl, listed, TRIES)
      modifies this
      ensures ok ==> history == old(history) + [k] && StepBy(c, old(k), PutConfig(c.goal.enabled, c.goal.lists), k) && Sound(c, k) && Arrived(c, k)
      ensures ok ==> k == old(k).(acl := k.acl) && k.acl.enabled == c.goal.enabled && k.acl.lists == c.goal.lists && k.acl.tries == old(k.acl.tries)
      ensures ok ==> (BitsCover(k.acl) <==> NothingMissed(c, listed))
      ensures ok ==> faults == old(faults)
      ensures !ok ==> faults > old(faults) && Kept(c)
    {
      GoalCovers(conf);
      NarrowStep(c, k);
      var final := seq(TRIES, t requires 0 <= t < TRIES => conf.rules[t] != []);
      assert final == c.goal.lists;
      ok := Perform(PutConfig(conf.aclEnabled, final));
      if ok {
        NarrowCoversExactly(c, k.acl, listed);
      }
    }

    /** Executes a plan. */
    method Execute(ghost c: Run, g: FwdGen.Scorer, conf: Conf, baseline: seq<Baseline>, nums: seq<int>, plan: VipAlloc.Plan)
      returns (ok: bool, ghost listed: seq<seq<Prefix>>)
      requires |conf.rules| == TRIES && |nums| == |conf.vips| && forall i :: 0 <= i < |nums| ==> 0 <= nums[i]
      requires c == PlannedRun(g, conf, maxVips, tableSize, c.base, nums, plan.writeOrder)
      requires Kept(c) && ReleasesUnused(c, plan.release) && k == c.base && Enumerates(baseline, k.vipMap)
      modifies this
      ensures !ok ==> Kept(c)
      ensures ValidRun(c)
      ensures ok ==> Completed(c, conf, maxBackends, plan.release, history, k, listed)
      ensures faults >= old(faults)
      ensures !ok ==> faults > old(faults) || GaveUp(c, k.acl, maxAcl)
      ensures ok && TriesFit(c.base.acl, maxAcl) ==> AclRoom(c, maxAcl)
      ensures ok && faults == old(faults) && TriesFit(c.base.acl, maxAcl) ==> k.acl == c.goal
    {
      ok, listed := Prepare(c, conf, baseline);
      if !ok {
        return;
      }
      ok := MoveVips(c, g, conf, nums, plan);
      if !ok {
        return;
      }
      ok := Attempt();  // tx_ports pruned
      if !ok {
        return;
      }
      ok := Finish(c, conf, plan.release, listed);
    }

    /** The last write, on top of everything else the run has achieved. */
    method Finish(ghost c: Run, conf: Conf, ghost release: seq<nat>, ghost listed: seq<seq<Prefix>>) returns (ok: bool)
      requires Kept(c) && |conf.rules| == TRIES && c.goal == Goal(conf)
      requires Back(c, k) && AclWork(c, k.acl) && TriesLeft(c, k.acl, listed, TRIES)
      requires c.wanted <= k.backends.Keys && forall id :: id in c.wanted ==> k.backends[id] in conf.backends && k.backends[id].id == id
      requires forall id :: 1 <= id < maxBackends && id in k.backends ==> id in c.wanted
      requires forall i, r: nat :: 0 <= i < |release| && r < tableSize ==> Row(k, tableSize, release[i], r) == NO_BACKEND
      modifies this
      ensures ok ==> Completed(c, conf, maxBackends, release, history, k, listed) && k.acl.tries == old(k.acl.tries)
      ensures ok ==> faults == old(faults)
      ensures !ok ==> faults > old(faults) && Kept(c)
    {
      ghost var s0, h0 := k, history;
      ok := WriteNarrow(c, conf, listed);
      if ok {
        RunFinishes(c, conf, maxBackends, release, s0, k, listed);
        CompletedBy(c, conf, maxBackends, release, h0, s0, PutConfig(c.goal.enabled, c.goal.lists), k, listed);
      }
    }

    /** A plan is executed from the state it was made in. */
    method RunPlan(ghost c: Run, g: FwdGen.Scorer, conf: Conf, baseline: seq<Baseline>, nums: seq<int>, plan: VipAlloc.Plan)
      returns (ok: bool, ghost listed: seq<seq<Prefix>>)
      requires |conf.rules| == TRIES && |nums| == |conf.vips| && forall i :: 0 <= i < |nums| ==> 0 <= nums[i]
      requires c == PlannedRun(g, conf, maxVips, tableSize, k, nums, plan.writeOrder)
      requires ValidRun(c) && TablesWanted(c) && ReleasesUnused(c, plan.release) && Enumerates(baseline, k.vipMap)
      requires history == [k] && |k.vipMap| <= maxVips
      modifies this
      ensures Recorded(c, history, k) && (!ok ==> Covered(c, k))
      ensures ok ==> Completed(c, conf, maxBackends, plan.release, history, k, listed)
      ensures faults >= old(faults)
      ensures !ok ==> faults > old(faults) || GaveUp(c, k.acl, maxAcl)
      ensures ok && TriesFit(c.base.acl, maxAcl) ==> AclRoom(c, maxAcl)
      ensures ok && faults == old(faults) && TriesFit(c.base.acl, maxAcl) ==> k.acl == c.goal
    {
      StartSound(c);
      ok, listed := Execute(c, g, conf, baseline, nums, plan);
      if !ok {
        FailedSafe(c, history, k);
      }
    }

    /** The whole run. It writes nothing unless it has a plan; every write is one allowed map
        operation, every state it passes through is safe, and so is the one a failure leaves.
        Success means that everything but the tries is as configured, failing operations or
        not, and the tries too unless a listing failed. When no operation fails, the run
        succeeds exactly on a valid start whose tries have room for old and new rules together.
        A map that already matches keeps its numbers and releases nothing. */
    method Apply(g: FwdGen.Scorer, conf: Conf)
      returns (ok: bool, planned: bool, nums: seq<int>, plan: VipAlloc.Plan, ghost c: Run, ghost listed: seq<seq<Prefix>>)
      requires |conf.rules| == TRIES && DisjointGroups(Groups(conf))
      requires |k.fwd| == maxVips * tableSize && WellFormed(k.acl) && history == [k]
      modifies this
      ensures !planned ==> !ok && k == old(k) && history == old(history)
      ensures planned ==> |nums| == |conf.vips| && forall i :: 0 <= i < |nums| ==> 0 <= nums[i]
      ensures planned ==> c == PlannedRun(g, conf, maxVips, tableSize, old(k), nums, plan.writeOrder) && ValidRun(c)
      ensures planned ==> Recorded(c, history, k) && (!ok ==> Covered(c, k))
      ensures ok ==> planned && Completed(c, conf, maxBackends, plan.release, history, k, listed)
      ensures ok ==> Serves(g, conf, tableSize, maxBackends, k)
      ensures faults >= old(faults)
      ensures planned ==> ValidStart(conf, maxVips, old(k))
      ensures !planned ==> faults > old(faults) || !ValidStart(conf, maxVips, old(k))
      ensures planned && !ok ==> faults > old(faults) || GaveUp(c, k.acl, maxAcl)
      ensures ok && TriesFit(old(k).acl, maxAcl) ==> AclRoom(c, maxAcl)
      ensures ok && faults == old(faults) && TriesFit(old(k).acl, maxAcl) ==>
                k.acl == c.goal && forall t, p :: 0 <= t < TRIES ==> (p in k.acl.tries[t] <==> p in conf.rules[t])
      ensures faults == old(faults) && ValidStart(conf, maxVips, old(k)) && TriesFit(old(k).acl, maxAcl) ==>
                planned && (ok <==> AclRoom(c, maxAcl))
      ensures planned ==> forall target :: SettledMap(old(k).vipMap, Groups(conf), target) ==> nums == target && plan.release == []
    {
      ok, listed := false, [];
      var baseline;
      planned, baseline, nums, plan, c := PlanRun(g, conf);
      if planned {
        ok, listed := RunPlan(c, g, conf, baseline, nums, plan);
        if ok {
          FinishedServes(g, conf, c, nums, maxBackends, plan.release, k, listed);
        }
      }
    }
  }
}
