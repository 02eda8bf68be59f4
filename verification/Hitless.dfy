/** What packets get while a run rewrites the maps: in each single state, and when a packet
    reads one map in one state and the next map in a later one. */
module Hitless {
  import opened Types
  import opened Acl
  import opened BlockAccounting
  import opened LiveMaps
  import opened LbCore
  import Parser
  import FwdGen
  import VipAlloc
  import Reconcile

  // ---- which entry serves a packet -------------------------------------------------------------

  datatype Lookup = NoKey | Key(key: VipKey)

  function AnyPort(t: Parser.Tuple): VipKey
    requires |t.dst| == 4
  {
    VipKeyOf(t).(port := 0)
  }

  /** The key a lookup over these keys ends at. */
  function KeyFound(keys: set<VipKey>, t: Parser.Tuple): Lookup
    requires |t.dst| == 4
  {
    if VipKeyOf(t) in keys then Key(VipKeyOf(t)) else if AnyPort(t) in keys then Key(AnyPort(t)) else NoKey
  }

  lemma Configured(groups: seq<seq<VipKey>>, key: VipKey)
    ensures key in AllKeys(groups) <==> Owner(groups, key) != UNSET
  {
    if Owner(groups, key) != UNSET {
      var i := Owner(groups, key);
      var k :| 0 <= k < |groups[i]| && groups[i][k] == key;
    }
  }

  /** Only keys that were live or are configured are ever live, and those that are both always are. */
  lemma LiveKeys(c: Run, s: Kernel, key: VipKey)
    requires ValidRun(c) && Sound(c, s)
    ensures key in s.vipMap ==> key in c.base.vipMap || key in AllKeys(c.groups)
    ensures key in c.base.vipMap && key in AllKeys(c.groups) ==> key in s.vipMap
  {
    Configured(c.groups, key);
    assert key in s.vipMap ==> KeyRouted(c, s, key);
  }

  /** If the same entry, or none, serves a packet before and after the run, the same entry, or
      none, serves it in every state in between, even if the exact port is looked up in one state
      and any port in another. */
  lemma LookupSteady(c: Run, s: Kernel, s': Kernel, t: Parser.Tuple)
    requires ValidRun(c) && Sound(c, s) && Sound(c, s') && |t.dst| == 4
    requires KeyFound(c.base.vipMap.Keys, t) == KeyFound(AllKeys(c.groups), t)
    ensures KeyFound(s.vipMap.Keys, t) == KeyFound(AllKeys(c.groups), t)
    ensures (if VipKeyOf(t) in s.vipMap then Key(VipKeyOf(t)) else if AnyPort(t) in s'.vipMap then Key(AnyPort(t)) else NoKey) ==
            KeyFound(AllKeys(c.groups), t)
  {
    LiveKeys(c, s, VipKeyOf(t));
    LiveKeys(c, s, AnyPort(t));
    LiveKeys(c, s', AnyPort(t));
  }

  /** The state a run is in once the keys nobody configures are deleted, before anything else. */
  ghost function Pruned(c: Run): Kernel {
    c.base.(vipMap := map key | key in c.base.vipMap && Owner(c.groups, key) != UNSET :: c.base.vipMap[key])
  }

  /** One of the packet's keys is live before the run and still configured. */
  ghost predicate Survives(c: Run, t: Parser.Tuple)
    requires |t.dst| == 4
  {
    || (VipKeyOf(t) in c.base.vipMap && VipKeyOf(t) in AllKeys(c.groups))
    || (AnyPort(t) in c.base.vipMap && AnyPort(t) in AllKeys(c.groups))
  }

  /** A packet finds an entry in every safe state exactly when one of its keys survives. An entry
      that is replaced by another entry for the same packets is missed after the deletions. */
  lemma NeverMissedExactly(c: Run, t: Parser.Tuple)
    requires ValidRun(c) && |c.base.vipMap| <= c.maxVips && |t.dst| == 4
    ensures Reconcile.Safe(c, Pruned(c))
    ensures (forall s :: Reconcile.Safe(c, s) ==> KeyFound(s.vipMap.Keys, t).Key?) <==> Survives(c, t)
    ensures !Survives(c, t) ==> KeyFound(Pruned(c).vipMap.Keys, t).NoKey?
  {
    Reconcile.AclStart(c, Pruned(c));
    Reconcile.FrontSound(c, Pruned(c));
    Configured(c.groups, VipKeyOf(t));
    Configured(c.groups, AnyPort(t));
    if Survives(c, t) {
      forall s | Reconcile.Safe(c, s) ensures KeyFound(s.vipMap.Keys, t).Key? {
        LiveKeys(c, s, VipKeyOf(t));
        LiveKeys(c, s, AnyPort(t));
      }
    }
  }

  // ---- selection in one state ------------------------------------------------------------------------

  /** What a packet of this key may get from the table: the backend its own VIP had at this row
      before the run, or will have after it. */
  ghost predicate OwnChoice(c: Run, key: VipKey, row: nat, id: nat)
    requires |c.tables| == |c.groups|
  {
    || (key in c.base.vipMap && id == Row(c.base, c.tableSize, c.base.vipMap[key].vipNum, row))
    || (Owner(c.groups, key) != UNSET && row < |c.tables[Owner(c.groups, key)]| && id == c.tables[Owner(c.groups, key)][row])
  }

  /** In every sound state, and under every hash, what a live key leads to is its VIP's own, and
      never a backend that is not there. */
  lemma LiveKeySelection(c: Run, env: Env, t: Parser.Tuple, key: VipKey)
    requires ValidEnv(env) && ValidRun(c) && Sound(c, env.kernel) && RowsPopulated(c, c.base)
    requires env.tableSize == c.tableSize && env.maxVips == c.maxVips && key in env.kernel.vipMap
    ensures var meta := env.kernel.vipMap[key];
            var row := HashRow(env, t, meta);
            var id := Row(env.kernel, c.tableSize, meta.vipNum, row);
            && OwnChoice(c, key, row, id)
            && (SelectByHash(env, t, meta) == if id == NO_BACKEND || id >= env.maxBackends then NoChoice
                                              else Chosen(env.kernel.backends[id]))
  {
    assert KeyRouted(c, env.kernel, key);
    OwnRowOnly(c, env.kernel, key, HashRow(env, t, env.kernel.vipMap[key]));
  }

  /** Hitless selection: a packet that one entry serves before and after the run finds that entry
      in every sound state, with its old or its new value, and its choice is the VIP's own. */
  lemma HitlessSelection(c: Run, env: Env, t: Parser.Tuple, key: VipKey)
    requires ValidEnv(env) && ValidRun(c) && Sound(c, env.kernel) && RowsPopulated(c, c.base)
    requires env.tableSize == c.tableSize && env.maxVips == c.maxVips && |t.dst| == 4
    requires KeyFound(c.base.vipMap.Keys, t) == Key(key) && KeyFound(AllKeys(c.groups), t) == Key(key)
    ensures key in c.base.vipMap && Owner(c.groups, key) != UNSET && key in env.kernel.vipMap
    ensures var meta := env.kernel.vipMap[key];
            var row := HashRow(env, t, meta);
            var id := Row(env.kernel, c.tableSize, meta.vipNum, row);
            && SelectVip(env.kernel.vipMap, t) == Vip(meta)
            && (meta == c.base.vipMap[key] || meta == c.metas[Owner(c.groups, key)])
            && OwnChoice(c, key, row, id)
            && (SelectByHash(env, t, meta) == if id == NO_BACKEND || id >= env.maxBackends then NoChoice
                                              else Chosen(env.kernel.backends[id]))
  {
    LookupSteady(c, env.kernel, env.kernel, t);
    Configured(c.groups, key);
    assert KeyRouted(c, env.kernel, key);
    LiveKeySelection(c, env, t, key);
  }

  /** Hitless outcome: in every sound state such a packet is refused only as a fragment under a
      port-dependent mode, goes where its connection ID says when that names an upright backend,
      and else gets what its VIP's own old or new row holds; a backend named there is populated. */
  lemma HitlessTarget(c: Run, env: Env, f: seq<nat>, p: Parser.Parsed, key: VipKey)
    requires ValidEnv(env) && ValidRun(c) && Sound(c, env.kernel) && RowsPopulated(c, c.base)
    requires env.tableSize == c.tableSize && env.maxVips == c.maxVips && p.rc.Ok? && |p.ctx.tuple.dst| == 4
    requires KeyFound(c.base.vipMap.Keys, p.ctx.tuple) == Key(key) && KeyFound(AllKeys(c.groups), p.ctx.tuple) == Key(key)
    ensures key in env.kernel.vipMap && key in c.base.vipMap && Owner(c.groups, key) != UNSET
    ensures var meta, out := env.kernel.vipMap[key], TargetOf(env, f, p);
            && (meta == c.base.vipMap[key] || meta == c.metas[Owner(c.groups, key)])
            && if Refused(meta, p.ctx) then out == FragUnsupported
               else if exists named: nat :: Names(env, f, p.ctx, meta, named) && Upright(env, named)
               then exists named: nat :: Names(env, f, p.ctx, meta, named) && Upright(env, named) && out == To(env.kernel.backends[named])
               else exists id: nat :: RowGives(c, env, p.ctx.tuple, key, id, out)
  {
    HitlessSelection(c, env, p.ctx.tuple, key);
    var meta := env.kernel.vipMap[key];
    var row := HashRow(env, p.ctx.tuple, meta);
    var id := Row(env.kernel, c.tableSize, meta.vipNum, row);
    assert KeyRouted(c, env.kernel, key);
    if Refused(meta, p.ctx) {
    } else if named: nat :| Names(env, f, p.ctx, meta, named) && Upright(env, named) {
      SteeredChoice(env, f, p.ctx, meta, named);
    } else {
      TabledChoice(env, f, p.ctx, meta, id);
      assert RowGives(c, env, p.ctx.tuple, key, id, TargetOf(env, f, p));
    }
  }

  /** `id` is the VIP's own choice for the packet, populated if it is a backend at all, and `out` follows from it. */
  ghost predicate RowGives(c: Run, env: Env, t: Parser.Tuple, key: VipKey, id: nat, out: Outcome)
    requires |c.tables| == |c.groups| && ValidEnv(env) && key in env.kernel.vipMap
  {
    && OwnChoice(c, key, HashRow(env, t, env.kernel.vipMap[key]), id)
    && if id == 0 || id >= env.maxBackends then out == NoBackend
       else id in env.kernel.backends && out == if env.kernel.backends[id].flags / 64 % 2 == 1 then To(env.kernel.backends[id]) else BackendDown
  }

  // ---- reads that span states --------------------------------------------------------------------------

  /** What a packet sees that reads the configuration in one state and each trie in another. */
  ghost function TornAcl(cfg: Kernel, tries: seq<Kernel>): (a: AclState)
    requires |tries| == TRIES
  {
    AclState(cfg.acl.enabled, cfg.acl.lists, seq(TRIES, t requires 0 <= t < TRIES => TrieOf(tries[t], t)))
  }

  ghost function TrieOf(s: Kernel, t: nat): set<Prefix> { if t < |s.acl.tries| then s.acl.tries[t] else {} }

  /** A source with one verdict before and after the run has it even then. */
  lemma TornVerdict(c: Run, cfg: Kernel, tries: seq<Kernel>, family: nat, source: seq<bool>)
    requires ValidRun(c) && Sound(c, cfg) && |tries| == TRIES && forall s :: s in tries ==> Sound(c, s)
    requires c.base.acl.enabled && c.goal.enabled && BitsCover(c.base.acl) && BitsCover(c.goal)
    requires AclCheck(c.base.acl, family, source) == AclCheck(c.goal, family, source)
    ensures WellFormed(TornAcl(cfg, tries)) && AclCheck(TornAcl(cfg, tries), family, source) == AclCheck(c.goal, family, source)
  {
    forall t | 0 <= t < TRIES ensures Between(TrieOf(tries[t], t), c.base.acl.tries[t], c.goal.tries[t]) {
      assert tries[t] in tries;
    }
    VerdictSteady(TornAcl(cfg, tries), c.base.acl, c.goal, family, source);
  }

  lemma RecordedSound(c: Run, history: seq<Kernel>, k: Kernel, i: nat)
    requires ValidRun(c) && Reconcile.Recorded(c, history, k) && i < |history|
    ensures Sound(c, history[i])
  {
    if i < |history| - 1 {
      assert Reconcile.SafeAt(c, history[..|history| - 1], i);
    }
  }

  /** The entry of a live key ends up with the block the key had. */
  ghost predicate KeepsBlock(c: Run, key: VipKey)
    requires |c.groups| == |c.metas|
  {
    && key in c.base.vipMap && Owner(c.groups, key) != UNSET
    && c.metas[Owner(c.groups, key)].vipNum == c.base.vipMap[key].vipNum
  }

  /** A packet that reads a key's value in one state of a recorded run and its row in that or any
      later state still gets its own VIP's row, if the value was the new one or the VIP keeps its
      block. */
  lemma TornRow(c: Run, history: seq<Kernel>, k: Kernel, i: nat, j: nat, key: VipKey, row: nat)
    requires ValidRun(c) && Reconcile.Recorded(c, history, k) && i <= j < |history|
    requires key in history[i].vipMap && row < c.tableSize
    requires KeepsBlock(c, key) || key !in c.base.vipMap || history[i].vipMap[key] != c.base.vipMap[key]
    ensures OwnChoice(c, key, row, Row(history[j], c.tableSize, history[i].vipMap[key].vipNum, row))
  {
    RecordedSound(c, history, k, i);
    RecordedSound(c, history, k, j);
    assert KeyRouted(c, history[i], key);
    if HasNew(c, history[i], key) {
      DoneStays(c, history, i, j, Owner(c.groups, key));
    } else {
      assert OwnRow(c, history[j], Owner(c.groups, key), row);
    }
  }

  /** And if it then reads the backend in a still later state, the backend is there unless the
      configuration no longer wants it. */
  lemma TornBackend(c: Run, history: seq<Kernel>, k: Kernel, i: nat, j: nat, l: nat, key: VipKey, row: nat)
    requires ValidRun(c) && Reconcile.Recorded(c, history, k) && RowsPopulated(c, c.base) && i <= j <= l < |history|
    requires key in history[i].vipMap && row < c.tableSize
    requires KeepsBlock(c, key) || key !in c.base.vipMap || history[i].vipMap[key] != c.base.vipMap[key]
    ensures var id := Row(history[j], c.tableSize, history[i].vipMap[key].vipNum, row);
            id != NO_BACKEND && id in c.wanted ==> id in history[l].backends
  {
    RecordedSound(c, history, k, i);
    RecordedSound(c, history, k, j);
    var id := Row(history[j], c.tableSize, history[i].vipMap[key].vipNum, row);
    assert KeyRouted(c, history[i], key);
    if id != NO_BACKEND && id in c.wanted {
      if HasNew(c, history[i], key) {
        DoneStays(c, history, i, j, Owner(c.groups, key));
        assert Row(history[i], c.tableSize, history[i].vipMap[key].vipNum, row) == id;
        WantedStays(c, history, i, l, id);
      } else {
        assert key in history[j].vipMap && KeyRouted(c, history[j], key);
        assert history[j].vipMap[key].vipNum == history[i].vipMap[key].vipNum;
        WantedStays(c, history, j, l, id);
      }
    }
  }

  /** In a planned run a key keeps its block exactly when that block goes to no other entry and is
      not released. */
  lemma KeepsBlockExactly(c: Run, baseline: seq<Baseline>, nums: seq<int>, plan: VipAlloc.Plan, key: VipKey)
    requires ValidRun(c) && Reconcile.Enumerates(baseline, c.base.vipMap) && VipAlloc.SafePlan(c.groups, baseline, c.maxVips, nums, plan)
    requires |nums| == |c.metas| && (forall j :: 0 <= j < |nums| ==> nums[j] == c.metas[j].vipNum) && key in c.base.vipMap
    ensures var num := c.base.vipMap[key].vipNum;
            KeepsBlock(c, key) <==> num !in plan.release && forall j :: 0 <= j < |nums| && nums[j] == num ==> j == Owner(c.groups, key)
  {
    var num := c.base.vipMap[key].vipNum;
    assert Reconcile.Listed(baseline, key);
    var b :| 0 <= b < |baseline| && baseline[b].key == key;
    assert VipAlloc.InBaseline(baseline, num);
    assert num in plan.release <==> num !in nums;
  }

  /** Where the old block of any key is after a run that reports success: with the entry that has
      it, or empty. So a read that spans such a run gets a row of its own VIP only by keeping the
      block. */
  lemma OldBlockAtEnd(c: Run, conf: Reconcile.Conf, maxBackends: nat, release: seq<nat>, s: Kernel, listed: seq<seq<Prefix>>, num: nat, row: nat)
    requires ValidRun(c) && Reconcile.Finished(c, conf, maxBackends, release, s, listed) && row < c.tableSize
    ensures InUse(c, num) ==> Row(s, c.tableSize, num, row) == c.tables[OwnerOfBlock(c, num)][row]
    ensures num in release ==> Row(s, c.tableSize, num, row) == NO_BACKEND
  {
  }

  // ---- a read that goes wrong -----------------------------------------------------------------------------

  const A: VipKey := NthKey(0)
  const B: VipKey := NthKey(1)
  const Five: Backend := Backend(5, [10, 0, 0, 5], 64, 0, [2, 0, 0, 0, 0, 5])

  /** Two VIPs with a block each are merged into one group, on the first one's block. */
  function Merged(): Reconcile.Conf {
    Reconcile.Conf([Reconcile.ConfVip([A, B], 0, [], [], [Reconcile.ConfMember(5, 1)])], [Five], false, [[], [], [], []])
  }

  function Apart(): Kernel {
    Kernel(map[A := VipMeta(0, 0, []), B := VipMeta(1, 0, [])], [5, 5], map[5 := Five],
           AclState(false, [false, false, false, false], [{}, {}, {}, {}]))
  }

  ghost function MergeRun(g: FwdGen.Scorer): Run { Reconcile.PlannedRun(g, Merged(), 2, 1, Apart(), [0], [0]) }

  lemma MergeIsRun(g: FwdGen.Scorer)
    ensures ValidRun(MergeRun(g)) && TablesWanted(MergeRun(g)) && MergeRun(g).tables == [[5]]
    ensures Owner(MergeRun(g).groups, A) == 0 && Owner(MergeRun(g).groups, B) == 0
    ensures forall key :: Owner(MergeRun(g).groups, key) != UNSET <==> key == A || key == B
  {
    var c := MergeRun(g);
    assert A.addr[0] == 0 && B.addr[0] == 1;
    assert c.groups[0] == [A, B] && c.groups[0][0] == A && c.groups[0][1] == B;
    OwnerIs(c.groups, A, 0);
    OwnerIs(c.groups, B, 0);
    assert TotalKeys(c.groups) == TotalKeys(c.groups[..0]) + 2;
    var members := Reconcile.Resolve(Merged(), Merged().vips[0]);
    FwdGen.RowsNameMembers(g, [], 1, members, c.tables[0], 0);
    assert c.tables[0] == [5];
  }

  /** The three states of the run that matter: before, with the second key moved, and with its old
      block released. */
  ghost function MergeHistory(g: FwdGen.Scorer): seq<Kernel> {
    var s1 := Done(Apart(), 1, PutKey(B, VipMeta(0, 0, [])));
    [Apart(), s1, Done(s1, 1, PutRow(1, 0, NO_BACKEND))]
  }

  lemma MergeStart(g: FwdGen.Scorer)
    ensures ValidRun(MergeRun(g)) && Reconcile.Safe(MergeRun(g), MergeHistory(g)[0])
  {
    MergeIsRun(g);
    Reconcile.AclStart(MergeRun(g), Apart());
    Reconcile.FrontSound(MergeRun(g), Apart());
  }

  lemma MergeArrived(g: FwdGen.Scorer, i: nat)
    requires 1 <= i <= 2
    ensures ValidRun(MergeRun(g)) && Arrived(MergeRun(g), MergeHistory(g)[i])
  {
    MergeIsRun(g);
  }

  lemma MergeSafe(g: FwdGen.Scorer, i: nat)
    requires i <= 2
    ensures ValidRun(MergeRun(g)) && Reconcile.Safe(MergeRun(g), MergeHistory(g)[i])
  {
    if i == 0 {
      MergeStart(g);
    } else {
      MergeIsRun(g);
      MergeArrived(g, i);
      Reconcile.AclStart(MergeRun(g), MergeHistory(g)[i]);
      Reconcile.BackSound(MergeRun(g), MergeHistory(g)[i]);
    }
  }

  lemma MergeSteps(g: FwdGen.Scorer)
    ensures ValidRun(MergeRun(g)) && Stepwise(MergeRun(g), MergeHistory(g))
  {
    var c, h := MergeRun(g), MergeHistory(g);
    MergeIsRun(g);
    assert StepBy(c, h[0], PutKey(B, VipMeta(0, 0, [])), h[1]);
    assert !InUse(c, 1);
    assert StepBy(c, h[1], PutRow(1, 0, NO_BACKEND), h[2]);
    assert StepAt(c, h, 0) && StepAt(c, h, 1);
  }

  lemma MergeRecorded(g: FwdGen.Scorer)
    ensures ValidRun(MergeRun(g)) && Reconcile.Recorded(MergeRun(g), MergeHistory(g), MergeHistory(g)[2])
  {
    var c, h := MergeRun(g), MergeHistory(g);
    MergeSteps(g);
    forall i | 0 <= i < |h| ensures Reconcile.SafeAt(c, h, i) {
      MergeSafe(g, i);
    }
    Reconcile.FailedSafe(c, h, h[2]);
  }

  /** A packet that reads the second key's value before it moves and the row after the release gets
      no backend, although its VIP had one before the run and has one after it. */
  lemma TornRowCanMiss(g: FwdGen.Scorer)
    ensures var c, h := MergeRun(g), MergeHistory(g);
            && ValidRun(c) && Reconcile.Recorded(c, h, h[2]) && B in h[0].vipMap && !KeepsBlock(c, B)
            && !OwnChoice(c, B, 0, Row(h[2], c.tableSize, h[0].vipMap[B].vipNum, 0))
  {
    MergeIsRun(g);
    MergeRecorded(g);
  }
}
