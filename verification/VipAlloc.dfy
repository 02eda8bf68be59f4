/** The planner of vip_alloc.c: claim a block per entry, order the writes so that no block is
    overwritten while a foreign key still points at it, and break regrouping cycles. */
module VipAlloc {
  import opened Types
  import opened Counting
  import opened BlockAccounting

  datatype Plan = Plan(writeOrder: seq<nat>, release: seq<nat>)

  // ---- what a plan promises -------------------------------------------------------

  /** Entry `order[t]` is written while no key of an entry written later, and so still
      pointing at its baseline block, refers to the block being overwritten. */
  ghost predicate SafeOrder(groups: seq<seq<VipKey>>, baseline: seq<Baseline>, nums: seq<int>, order: seq<nat>) {
    && (forall t :: 0 <= t < |order| ==> order[t] < |nums|)
    && (forall t, b :: 0 <= t < |order| && 0 <= b < |baseline| && StillAway(groups, baseline[b].key, order[..t + 1]) ==>
          baseline[b].num != nums[order[t]])
  }

  /** The key belongs to an entry that is not among those already written. */
  ghost predicate StillAway(groups: seq<seq<VipKey>>, key: VipKey, done: seq<nat>) {
    Owner(groups, key) != UNSET && Owner(groups, key) !in done
  }

  ghost predicate SafePlan(groups: seq<seq<VipKey>>, baseline: seq<Baseline>, maxVips: nat, nums: seq<int>, plan: Plan) {
    && |nums| == |groups|
    && (forall i :: 0 <= i < |nums| ==> 0 <= nums[i] < maxVips)
    && Distinct(nums)
    && |plan.writeOrder| == |groups| && Distinct(plan.writeOrder)
    && SafeOrder(groups, baseline, nums, plan.writeOrder)
    && ExactRelease(baseline, maxVips, nums, plan.release)
  }

  /** `release` lists, in ascending order, the baseline blocks that no entry ends up with. */
  ghost predicate ExactRelease(baseline: seq<Baseline>, maxVips: nat, nums: seq<int>, release: seq<nat>) {
    && (forall i, j :: 0 <= i < j < |release| ==> release[i] < release[j])
    && (forall v: nat :: v in release <==> v < maxVips && v !in nums && InBaseline(baseline, v))
  }

  ghost predicate InBaseline(baseline: seq<Baseline>, num: nat) {
    exists b :: 0 <= b < |baseline| && baseline[b].num == num
  }

  /** The live map already matches the configuration, with entry `i` on block `target[i]`. */
  ghost predicate Settled(groups: seq<seq<VipKey>>, baseline: seq<Baseline>, target: seq<int>) {
    && |target| == |groups| && Distinct(target)
    && (forall b :: 0 <= b < |baseline| ==> Owner(groups, baseline[b].key) != UNSET)
    && (forall b :: 0 <= b < |baseline| ==> baseline[b].num == target[Owner(groups, baseline[b].key)])
    && (forall i :: 0 <= i < |groups| ==> InLiveMap(groups, baseline, i))
  }

  ghost predicate InLiveMap(groups: seq<seq<VipKey>>, baseline: seq<Baseline>, i: int) {
    exists b :: 0 <= b < |baseline| && Owner(groups, baseline[b].key) == i
  }

  // ---- lookups --------------------------------------------------------------------

  method FindOwner(groups: seq<seq<VipKey>>, key: VipKey) returns (owner: int)
    ensures owner == Owner(groups, key)
  {
    for i := 0 to |groups|
      invariant forall j :: 0 <= j < i ==> key !in groups[j]
    {
      for k := 0 to |groups[i]|
        invariant key !in groups[i][..k]
      {
        if groups[i][k] == key {
          return i;
        }
      }
    }
    return UNSET;
  }

  method BlockReady(refs: array<Reference>, count: nat, num: int, entry: int) returns (ready: bool)
    requires count <= refs.Length
    ensures ready == Ready(refs[..count], num, entry)
  {
    for i := 0 to count
      invariant Ready(refs[..i], num, entry)
    {
      if refs[i].num == num && refs[i].entry != entry {
        assert refs[..count][i] == refs[i];
        return false;
      }
    }
    return true;
  }

  method Blocker(refs: array<Reference>, count: nat, num: int, entry: int) returns (blocker: int)
    requires count <= refs.Length
    ensures blocker == UNSET ==> Ready(refs[..count], num, entry)
    ensures blocker != UNSET ==> blocker != entry && exists r :: 0 <= r < count && refs[r].num == num && refs[r].entry == blocker
  {
    for i := 0 to count
      invariant Ready(refs[..i], num, entry)
    {
      if refs[i].num == num && refs[i].entry != entry {
        return refs[i].entry;
      }
    }
    return UNSET;
  }

  // ---- the claim phase --------------------------------------------------------------

  ghost predicate Hit(keys: seq<VipKey>, baseline: seq<Baseline>, k: int, b: int) {
    0 <= k < |keys| && 0 <= b < |baseline| && keys[k] == baseline[b].key
  }

  /** `num` is the first block, in key order and then baseline order, that matches an entry's
      keys and is not yet taken; UNSET if every matching block is taken. */
  ghost predicate FirstUnclaimed(keys: seq<VipKey>, baseline: seq<Baseline>, taken: seq<int>, num: int) {
    if num == UNSET
    then forall k, b :: Hit(keys, baseline, k, b) ==> baseline[b].num in taken
    else num !in taken &&
         exists k, b :: Hit(keys, baseline, k, b) && baseline[b].num == num &&
                        forall k', b' :: Hit(keys, baseline, k', b') && (k' < k || (k' == k && b' < b)) ==> baseline[b'].num in taken
  }

  method Match(keys: seq<VipKey>, baseline: seq<Baseline>, used: array<bool>, ghost taken: seq<int>) returns (num: int)
    requires forall b :: 0 <= b < |baseline| ==> baseline[b].num < used.Length
    requires forall v :: 0 <= v < used.Length ==> (used[v] <==> v in taken)
    ensures FirstUnclaimed(keys, baseline, taken, num)
    ensures num == UNSET || 0 <= num < used.Length
  {
    for k := 0 to |keys|
      invariant forall k', b' :: Hit(keys, baseline, k', b') && k' < k ==> baseline[b'].num in taken
    {
      for b := 0 to |baseline|
        invariant forall b' :: Hit(keys, baseline, k, b') && b' < b ==> baseline[b'].num in taken
      {
        if !used[baseline[b].num] && keys[k] == baseline[b].key {
          assert Hit(keys, baseline, k, b);
          return baseline[b].num;
        }
      }
    }
    return UNSET;
  }

  /** The documented preference: first the entries that can keep a baseline block take one
      (`mid`), then each remaining entry, in order, takes the lowest number still free. */
  ghost predicate Preference(groups: seq<seq<VipKey>>, baseline: seq<Baseline>, mid: seq<int>, claim: seq<int>) {
    && |mid| == |claim| == |groups|
    && (forall i :: 0 <= i < |mid| ==> Keeps(groups, baseline, mid, i))
    && (forall i :: 0 <= i < |mid| ==> Fills(mid, claim, i))
  }

  /** Entry `i` keeps its first block that no earlier entry kept. */
  ghost predicate Keeps(groups: seq<seq<VipKey>>, baseline: seq<Baseline>, mid: seq<int>, i: nat)
    requires i < |mid| == |groups|
  {
    FirstUnclaimed(groups[i], baseline, mid[..i], mid[i])
  }

  /** Entry `i` ends with the block it kept, or with the lowest free number. */
  ghost predicate Fills(mid: seq<int>, claim: seq<int>, i: nat)
    requires i < |mid| == |claim|
  {
    if mid[i] != UNSET then claim[i] == mid[i] else LowestFree(mid, claim[..i], claim[i])
  }

  ghost predicate LowestFree(mid: seq<int>, before: seq<int>, num: int) {
    0 <= num && num !in mid && num !in before && forall v :: 0 <= v < num ==> v in mid || v in before
  }

  lemma FirstUnclaimedUnique(keys: seq<VipKey>, baseline: seq<Baseline>, taken: seq<int>, num: int, other: int)
    requires FirstUnclaimed(keys, baseline, taken, num) && FirstUnclaimed(keys, baseline, taken, other)
    ensures num == other
  {
  }

  lemma SamePrefix(x: seq<int>, y: seq<int>, n: nat)
    requires n < |x| && n < |y| && x[..n] == y[..n] && x[n] == y[n]
    ensures x[..n + 1] == y[..n + 1]
  {
    assert x[..n + 1] == x[..n] + [x[n]];
  }

  lemma {:induction false} KeptUnique(groups: seq<seq<VipKey>>, baseline: seq<Baseline>, mid: seq<int>, mid': seq<int>, n: nat)
    requires |mid| == |mid'| == |groups| && n <= |groups|
    requires forall i :: 0 <= i < |mid| ==> Keeps(groups, baseline, mid, i)
    requires forall i :: 0 <= i < |mid| ==> Keeps(groups, baseline, mid', i)
    ensures mid[..n] == mid'[..n]
  {
    if n > 0 {
      KeptUnique(groups, baseline, mid, mid', n - 1);
      assert Keeps(groups, baseline, mid, n - 1) && Keeps(groups, baseline, mid', n - 1);
      FirstUnclaimedUnique(groups[n - 1], baseline, mid[..n - 1], mid[n - 1], mid'[n - 1]);
      SamePrefix(mid, mid', n - 1);
    }
  }

  lemma {:induction false} LowestUnique(mid: seq<int>, claim: seq<int>, claim': seq<int>, n: nat)
    requires |mid| == |claim| == |claim'| && n <= |mid|
    requires forall i :: 0 <= i < |mid| ==> Fills(mid, claim, i)
    requires forall i :: 0 <= i < |mid| ==> Fills(mid, claim', i)
    ensures claim[..n] == claim'[..n]
  {
    if n > 0 {
      LowestUnique(mid, claim, claim', n - 1);
      assert Fills(mid, claim, n - 1) && Fills(mid, claim', n - 1);
      SamePrefix(claim, claim', n - 1);
    }
  }

  /** The preference leaves no choice: it determines the claimed blocks. */
  lemma PreferenceUnique(groups: seq<seq<VipKey>>, baseline: seq<Baseline>, mid: seq<int>, claim: seq<int>,
                         mid': seq<int>, claim': seq<int>)
    requires Preference(groups, baseline, mid, claim) && Preference(groups, baseline, mid', claim')
    ensures mid == mid' && claim == claim'
  {
    var n := |groups|;
    KeptUnique(groups, baseline, mid, mid', n);
    assert mid[..n] == mid && mid'[..n] == mid';
    LowestUnique(mid, claim, claim', n);
    assert claim[..n] == claim && claim'[..n] == claim';
  }

  /** A partial assignment: `used` marks exactly the blocks handed out so far. */
  ghost predicate Partial(nums: seq<int>, used: seq<bool>) {
    && (forall i :: 0 <= i < |nums| && nums[i] != UNSET ==> 0 <= nums[i] < |used| && used[nums[i]])
    && (forall i, j :: 0 <= i < j < |nums| && nums[i] != UNSET ==> nums[i] != nums[j])
    && (forall v :: 0 <= v < |used| ==> Held(nums, used, v))
  }

  lemma ClaimOne(nums: seq<int>, used: seq<bool>, i: nat, num: nat)
    requires Partial(nums, used) && i < |nums| && nums[i] == UNSET
    requires num < |used| && !used[num]
    ensures Partial(nums[i := num], used[num := true])
  {
    var nums', used' := nums[i := num], used[num := true];
    assert nums'[i] == num;
    forall v | 0 <= v < |used'| ensures Held(nums', used', v) {
      assert Held(nums, used, v);
      if used'[v] && v != num {
        var j :| 0 <= j < |nums| && nums[j] == v;
        assert nums'[j] == v;
      }
    }
  }

  /** When every block is taken and some entry has none, the entries outnumber the blocks. */
  lemma TakenBlocksCount(nums: seq<int>, used: seq<bool>, i: nat)
    requires Partial(nums, used) && i < |nums| && nums[i] == UNSET
    requires forall v :: 0 <= v < |used| ==> used[v]
    ensures |used| < |nums|
  {
    var holders: seq<nat> := [];
    while |holders| < |used|
      invariant |holders| <= |used|
      invariant forall v :: 0 <= v < |holders| ==> holders[v] < |nums| && nums[holders[v]] == v
    {
      assert used[|holders|] && Held(nums, used, |holders|);
      var j :| 0 <= j < |nums| && nums[j] == |holders|;
      holders := holders + [j];
    }
    assert Distinct(holders + [i]);
    DistinctBelow(holders + [i], |nums|);
  }

  /** The first pass has settled the entries before `i`. */
  ghost predicate FirstPass(groups: seq<seq<VipKey>>, baseline: seq<Baseline>, nums: seq<int>, used: seq<bool>, i: nat) {
    && |nums| == |groups| && i <= |nums| && Partial(nums, used)
    && (forall j :: 0 <= j < i ==> Keeps(groups, baseline, nums, j))
    && (forall j :: i <= j < |nums| ==> nums[j] == UNSET)
  }

  lemma TakenSoFar(nums: seq<int>, used: seq<bool>, i: nat, v: nat)
    requires Partial(nums, used) && i <= |nums| && v < |used| && forall j :: i <= j < |nums| ==> nums[j] == UNSET
    ensures used[v] <==> v in nums[..i]
  {
    assert Held(nums, used, v);
    if used[v] {
      var j :| 0 <= j < |nums| && nums[j] == v;
      assert nums[..i][j] == v;
    }
  }

  lemma FirstPassStep(groups: seq<seq<VipKey>>, baseline: seq<Baseline>, nums: seq<int>, used: seq<bool>, i: nat, num: int)
    requires FirstPass(groups, baseline, nums, used, i) && i < |nums|
    requires FirstUnclaimed(groups[i], baseline, nums[..i], num) && UNSET <= num < |used|
    ensures FirstPass(groups, baseline, nums[i := num], if num == UNSET then used else used[num := true], i + 1)
  {
    var nums' := nums[i := num];
    if num != UNSET {
      TakenSoFar(nums, used, i, num);
      ClaimOne(nums, used, i, num);
    } else {
      assert nums' == nums;
    }
    forall j | 0 <= j <= i ensures Keeps(groups, baseline, nums', j) {
      assert nums'[..j] == nums[..j];
      assert j < i ==> Keeps(groups, baseline, nums, j);
    }
  }

  /** First pass of the claim: each entry takes its first unclaimed baseline block. */
  method ClaimBaseline(groups: seq<seq<VipKey>>, baseline: seq<Baseline>, nums: array<int>, used: array<bool>)
    requires nums.Length == |groups|
    requires forall b :: 0 <= b < |baseline| ==> baseline[b].num < used.Length
    requires forall v :: 0 <= v < used.Length ==> !used[v]
    requires forall i :: 0 <= i < nums.Length ==> nums[i] == UNSET
    modifies nums, used
    ensures FirstPass(groups, baseline, nums[..], used[..], nums.Length)
  {
    for i := 0 to |groups|
      invariant FirstPass(groups, baseline, nums[..], used[..], i)
    {
      ghost var nums0, used0 := nums[..], used[..];
      forall v | 0 <= v < used.Length ensures used[v] <==> v in nums[..i] {
        TakenSoFar(nums0, used0, i, v);
      }
      var num := Match(groups[i], baseline, used, nums[..i]);
      FirstPassStep(groups, baseline, nums0, used0, i, num);
      nums[i] := num;
      if num != UNSET {
        used[num] := true;
      }
      assert nums[..] == nums0[i := num] && used[..] == if num == UNSET then used0 else used0[num := true];
    }
  }

  method FirstFree(used: array<bool>) returns (num: nat)
    ensures num <= used.Length && (num < used.Length ==> !used[num])
    ensures forall v :: 0 <= v < num ==> used[v]
  {
    num := 0;
    while num < used.Length && used[num]
      invariant num <= used.Length
      invariant forall v :: 0 <= v < num ==> used[v]
    {
      num := num + 1;
    }
  }

  /** Second pass of the claim: an entry still without a block takes the lowest free number. */
  method ClaimLowest(nums: array<int>, used: array<bool>) returns (ok: bool)
    requires Partial(nums[..], used[..])
    modifies nums, used
    ensures ok <==> nums.Length <= used.Length
    ensures ok ==> Assigned(nums[..], used[..])
    ensures ok ==> forall i :: 0 <= i < nums.Length ==> Fills(old(nums[..]), nums[..], i)
  {
    ghost var mid := nums[..];
    for i := 0 to nums.Length
      invariant SecondPass(mid, nums[..], used[..], i)
    {
      if nums[i] != UNSET {
        SecondPassKept(mid, nums[..], used[..], i);
        continue;
      }
      var num := FirstFree(used);
      if num == used.Length {
        TakenBlocksCount(nums[..], used[..], i);
        return false;
      }
      ghost var nums0, used0 := nums[..], used[..];
      SecondPassStep(mid, nums0, used0, i, num);
      nums[i] := num;
      used[num] := true;
      assert nums[..] == nums0[i := num] && used[..] == used0[num := true];
    }
    SecondPassDone(mid, nums[..], used[..]);
    return true;
  }

  /** The second pass has settled the entries before `i`. */
  ghost predicate SecondPass(mid: seq<int>, nums: seq<int>, used: seq<bool>, i: nat) {
    && |mid| == |nums| && i <= |nums| && Partial(nums, used)
    && (forall j :: 0 <= j < i ==> nums[j] != UNSET)
    && (forall j :: 0 <= j < |nums| && (mid[j] != UNSET || j >= i) ==> nums[j] == mid[j])
    && (forall j :: 0 <= j < i ==> Fills(mid, nums, j))
  }

  lemma SecondPassKept(mid: seq<int>, nums: seq<int>, used: seq<bool>, i: nat)
    requires SecondPass(mid, nums, used, i) && i < |nums| && nums[i] != UNSET
    ensures SecondPass(mid, nums, used, i + 1)
  {
  }

  lemma SecondPassStep(mid: seq<int>, nums: seq<int>, used: seq<bool>, i: nat, num: nat)
    requires SecondPass(mid, nums, used, i) && i < |nums| && nums[i] == UNSET
    requires num < |used| && !used[num] && forall v :: 0 <= v < num ==> used[v]
    ensures SecondPass(mid, nums[i := num], used[num := true], i + 1)
  {
    var nums' := nums[i := num];
    ClaimOne(nums, used, i, num);
    LowestTaken(mid, nums, used, i, num);
    forall j | 0 <= j <= i ensures Fills(mid, nums', j) {
      assert nums'[..j] == nums[..j];
      assert j < i ==> Fills(mid, nums, j);
    }
  }

  lemma SecondPassDone(mid: seq<int>, nums: seq<int>, used: seq<bool>)
    requires SecondPass(mid, nums, used, |nums|)
    ensures Assigned(nums, used) && |nums| <= |used|
    ensures forall j :: 0 <= j < |nums| ==> Fills(mid, nums, j)
  {
    DistinctBelow(nums, |used|);
  }

  /** Everything below the number found is held by an entry of the first pass or an earlier one. */
  lemma LowestTaken(mid: seq<int>, nums: seq<int>, used: seq<bool>, i: nat, num: nat)
    requires Partial(nums, used) && |mid| == |nums| && i < |nums|
    requires forall j :: 0 <= j < |nums| && (mid[j] != UNSET || j >= i) ==> nums[j] == mid[j]
    requires num < |used| && !used[num] && forall v :: 0 <= v < num ==> used[v]
    ensures LowestFree(mid, nums[..i], num)
  {
    forall v | 0 <= v < num ensures v in mid || v in nums[..i] {
      assert used[v] && Held(nums, used, v);
      var j :| 0 <= j < |nums| && nums[j] == v;
      assert j < i ==> nums[..i][j] == v;
      assert j >= i ==> mid[j] == v;
    }
    assert num !in nums;
    assert forall j :: 0 <= j < |mid| ==> mid[j] == UNSET || nums[j] == mid[j];
  }

  lemma FirstPassReference(baseline: seq<Baseline>, mid: seq<int>, s: Stage, i: nat)
    requires DisjointGroups(s.groups) && s.owned == Owned(s.groups, baseline)
    requires Preference(s.groups, baseline, mid, s.claim)
    requires i < |mid| && mid[i] != UNSET
    ensures s.HasReference(i, s.claim[i])
  {
    assert Keeps(s.groups, baseline, mid, i) && Fills(mid, s.claim, i);
    var k, b :| Hit(s.groups[i], baseline, k, b) && baseline[b].num == mid[i];
    OwnerIs(s.groups, baseline[b].key, i);
    var r :| 0 <= r < |s.owned| && s.owned[r] == baseline[b];
    assert s.OwnerOf(r) == i;
  }

  lemma SecondPassReference(baseline: seq<Baseline>, mid: seq<int>, s: Stage, r: nat)
    requires s.owned == Owned(s.groups, baseline)
    requires Preference(s.groups, baseline, mid, s.claim)
    requires s.first == set i | 0 <= i < |mid| && mid[i] != UNSET
    requires r < |s.owned| && s.OwnerOf(r) !in s.first
    ensures s.ClaimedFirst(s.owned[r].num)
  {
    var i := s.OwnerOf(r);
    assert Keeps(s.groups, baseline, mid, i);
    var b :| 0 <= b < |baseline| && baseline[b] == s.owned[r];
    var k :| 0 <= k < |s.groups[i]| && s.groups[i][k] == s.owned[r].key;
    assert Hit(s.groups[i], baseline, k, b);
    var j :| 0 <= j < i && mid[..i][j] == baseline[b].num;
    assert j in s.first && Fills(mid, s.claim, j);
  }

  lemma ClaimEstablished(baseline: seq<Baseline>, mid: seq<int>, s: Stage)
    requires DisjointGroups(s.groups) && s.owned == Owned(s.groups, baseline)
    requires Preference(s.groups, baseline, mid, s.claim)
    requires s.first == set i | 0 <= i < |mid| && mid[i] != UNSET
    requires Distinct(s.claim)
    ensures s.Claimed()
  {
    forall i | 0 <= i < |s.claim| ensures s.Anchored(i) {
      if i in s.first {
        FirstPassReference(baseline, mid, s, i);
      }
    }
    forall r | 0 <= r < |s.owned| ensures s.Accounted(r) {
      if s.OwnerOf(r) !in s.first {
        SecondPassReference(baseline, mid, s, r);
      }
    }
  }

  method Claim(groups: seq<seq<VipKey>>, baseline: seq<Baseline>, nums: array<int>, used: array<bool>)
    returns (ok: bool, ghost mid: seq<int>, ghost first: set<nat>)
    requires DisjointGroups(groups)
    requires nums.Length == |groups|
    requires forall b :: 0 <= b < |baseline| ==> baseline[b].num < used.Length
    requires forall v :: 0 <= v < used.Length ==> !used[v]
    requires forall i :: 0 <= i < nums.Length ==> nums[i] == UNSET
    modifies nums, used
    ensures ok <==> |groups| <= used.Length
    ensures ok ==> Assigned(nums[..], used[..]) && Preference(groups, baseline, mid, nums[..])
    ensures ok ==> forall refs, written ::
                     Stage(groups, Owned(groups, baseline), nums[..], first, nums[..], used[..], refs, written).Claimed()
  {
    ClaimBaseline(groups, baseline, nums, used);
    mid := nums[..];
    first := set i | 0 <= i < |mid| && mid[i] != UNSET;
    ok := ClaimLowest(nums, used);
    if ok {
      forall refs, written
        ensures Stage(groups, Owned(groups, baseline), nums[..], first, nums[..], used[..], refs, written).Claimed()
      {
        var s := Stage(groups, Owned(groups, baseline), nums[..], first, nums[..], used[..], refs, written);
        ClaimEstablished(baseline, mid, s);
      }
    }
  }

  lemma SettledFirst(groups: seq<seq<VipKey>>, baseline: seq<Baseline>, target: seq<int>, i: nat, num: int)
    requires DisjointGroups(groups) && Settled(groups, baseline, target)
    requires i < |groups| && FirstUnclaimed(groups[i], baseline, target[..i], num)
    ensures num == target[i] && num != UNSET
  {
    assert InLiveMap(groups, baseline, i);
    var b :| 0 <= b < |baseline| && Owner(groups, baseline[b].key) == i;
    var k :| 0 <= k < |groups[i]| && groups[i][k] == baseline[b].key;
    assert Hit(groups[i], baseline, k, b);
    assert target[i] !in target[..i];
    if num != UNSET {
      var k', b' :| Hit(groups[i], baseline, k', b') && baseline[b'].num == num;
      OwnerIs(groups, baseline[b'].key, i);
    }
  }

  /** On a live map that already matches, every entry claims the block it has. */
  lemma {:induction false} SettledClaim(groups: seq<seq<VipKey>>, baseline: seq<Baseline>, mid: seq<int>, claim: seq<int>,
                                        target: seq<int>, n: nat)
    requires DisjointGroups(groups) && Settled(groups, baseline, target)
    requires Preference(groups, baseline, mid, claim)
    requires n <= |groups|
    ensures mid[..n] == target[..n] == claim[..n]
  {
    if n > 0 {
      SettledClaim(groups, baseline, mid, claim, target, n - 1);
      assert Keeps(groups, baseline, mid, n - 1) && Fills(mid, claim, n - 1);
      SettledFirst(groups, baseline, target, n - 1, mid[n - 1]);
      SamePrefix(mid, target, n - 1);
      SamePrefix(claim, target, n - 1);
    }
  }

  // ---- the ordering loop ------------------------------------------------------------

  /** The references after entry `e` is written to block `num`. */
  ghost function Repointed(refs: seq<Reference>, e: nat, num: nat): seq<Reference> {
    seq(|refs|, r requires 0 <= r < |refs| => if refs[r].entry == e then Reference(e, num) else refs[r])
  }

  /** One iteration: entry `e` is written, to the block it has or to a free one. */
  ghost function AfterWrite(s: Stage, e: nat, num: nat): Stage
    requires s.Mirrors() && Assigned(s.nums, s.used) && e < |s.nums| && num < |s.used|
  {
    s.(nums := s.nums[e := num],
       used := s.used[s.nums[e] := false][num := true],
       refs := Repointed(s.refs, e, num),
       written := s.written[e := true])
  }

  /** What the claim phase established does not depend on the arrays. */
  lemma ClaimedStays(s: Stage, t: Stage)
    requires s.Claimed() && t.groups == s.groups && t.owned == s.owned && t.claim == s.claim && t.first == s.first
    ensures t.Claimed()
  {
    forall i | 0 <= i < |t.claim| ensures t.Anchored(i) {
      assert s.Anchored(i);
      if i in s.first {
        var r :| 0 <= r < |s.owned| && s.OwnerOf(r) == i && s.owned[r].num == s.claim[i];
        assert t.OwnerOf(r) == i;
      }
    }
    forall r | 0 <= r < |t.owned| ensures t.Accounted(r) {
      assert s.Accounted(r);
    }
  }

  lemma AfterWriteValid(s: Stage, e: nat, num: nat)
    requires s.Valid()
    requires e < |s.nums| && !s.written[e] && num < |s.used|
    requires num == s.nums[e] || !s.used[num]
    ensures AfterWrite(s, e, num).Valid()
  {
    var t := AfterWrite(s, e, num);
    assert t.nums[e] == num;
    forall v | 0 <= v < |t.used| ensures Held(t.nums, t.used, v) {
      assert Held(s.nums, s.used, v);
      if t.used[v] && v != num {
        var j :| 0 <= j < |s.nums| && s.nums[j] == v;
        assert t.nums[j] == v;
      }
    }
    ClaimedStays(s, t);
  }

  /** Writing a ready entry keeps the order safe. */
  lemma SafeOrderExtends(s: Stage, order: seq<nat>, e: nat, num: nat)
    requires s.Valid() && SafeOrder(s.groups, s.owned, s.nums, order)
    requires forall i :: 0 <= i < |s.nums| ==> (s.written[i] <==> i in order)
    requires e < |s.nums| && !s.written[e] && num < |s.used|
    requires Ready(s.refs, num, e)
    ensures SafeOrder(s.groups, s.owned, s.nums[e := num], order + [e])
  {
    var nums', order' := s.nums[e := num], order + [e];
    forall t, b | 0 <= t < |order'| && 0 <= b < |s.owned| && StillAway(s.groups, s.owned[b].key, order'[..t + 1])
      ensures s.owned[b].num != nums'[order'[t]]
    {
      if t < |order| {
        assert order'[..t + 1] == order[..t + 1];
        assert StillAway(s.groups, s.owned[b].key, order[..t + 1]);
        assert order[t] in order;
      } else {
        assert order'[..t + 1] == order';
        assert order'[|order|] == e;
        assert s.refs[b].entry == s.OwnerOf(b);
      }
    }
  }

  /** `entry` waits for `other` to give up the block `entry` is meant for. */
  ghost predicate BlockedBy(s: Stage, entry: nat, other: nat)
    requires entry < |s.nums|
  {
    entry != other && exists r :: 0 <= r < |s.refs| && s.refs[r].num == s.nums[entry] && s.refs[r].entry == other
  }

  ghost predicate Edge(s: Stage, path: seq<nat>, i: nat) {
    i + 1 < |path| && path[i] < |s.nums| && BlockedBy(s, path[i], path[i + 1])
  }

  /** Unwritten entries each blocked by the next, the last by the first. */
  ghost predicate BlockedCycle(s: Stage, cycle: seq<nat>) {
    && cycle != []
    && (forall i :: 0 <= i < |cycle| ==> cycle[i] < |s.nums| && cycle[i] < |s.written| && !s.written[cycle[i]])
    && (forall i :: 0 <= i < |cycle| ==> Edge(s, cycle + [cycle[0]], i))
  }

  ghost predicate InCycle(s: Stage, entry: nat) {
    exists cycle :: BlockedCycle(s, cycle) && cycle[0] == entry
  }

  /** `path` followed blocked-by edges over distinct unwritten entries and now stands at `entry`. */
  ghost predicate Walk(s: Stage, path: seq<nat>, entry: nat) {
    && entry < |s.nums| && entry < |s.written| && !s.written[entry]
    && Distinct(path)
    && (forall i :: 0 <= i < |path| ==> path[i] < |s.nums| && path[i] < |s.written| && !s.written[path[i]])
    && (forall i :: 0 <= i < |path| ==> Edge(s, path + [entry], i))
  }

  lemma WalkStep(s: Stage, path: seq<nat>, entry: nat, r: nat)
    requires s.Valid() && Walk(s, path, entry) && entry !in path
    requires r < |s.refs| && s.refs[r].num == s.nums[entry] && s.refs[r].entry != entry
    ensures Walk(s, path + [entry], s.refs[r].entry)
    ensures |path| < |s.nums|
  {
    assert BlockedBy(s, entry, s.refs[r].entry);
    DistinctBelow(path + [entry], |s.nums|);
    var path', other := path + [entry], s.refs[r].entry;
    forall i | 0 <= i < |path'| ensures Edge(s, path' + [other], i) {
      assert i < |path| ==> Edge(s, path + [entry], i);
    }
  }

  lemma WalkCloses(s: Stage, path: seq<nat>, entry: nat) returns (cycle: seq<nat>)
    requires Walk(s, path, entry) && entry in path
    ensures BlockedCycle(s, cycle) && cycle[0] == entry
  {
    var k :| 0 <= k < |path| && path[k] == entry;
    cycle := path[k..];
    forall i | 0 <= i < |cycle| ensures Edge(s, cycle + [cycle[0]], i) {
      assert Edge(s, path + [entry], k + i);
    }
  }

  /** Exactly the entries on the path are marked as seen. */
  ghost predicate Marked(seen: seq<bool>, path: seq<nat>) {
    forall x: nat :: x < |seen| ==> (seen[x] <==> x in path)
  }

  lemma MarkedStep(seen: seq<bool>, path: seq<nat>, entry: nat)
    requires Marked(seen, path) && entry < |seen|
    ensures Marked(seen[entry := true], path + [entry])
  {
  }

  /** In a stuck state the walk can always go on. */
  method NextBlocker(ghost s: Stage, ghost path: seq<nat>, nums: array<int>, refs: array<Reference>, refCount: nat, entry: nat)
    returns (blocker: int)
    requires s.Valid() && s.Stuck() && Walk(s, path, entry) && entry !in path
    requires refCount <= refs.Length && s.nums == nums[..] && s.refs == refs[..refCount]
    ensures 0 <= blocker && Walk(s, path + [entry], blocker) && |path| < nums.Length
  {
    blocker := Blocker(refs, refCount, nums[entry], entry);
    ghost var r :| 0 <= r < refCount && refs[r].num == nums[entry] && refs[r].entry == blocker;
    assert s.refs[r] == refs[r];
    WalkStep(s, path, entry, r);
  }

  /** Walks blocked-by edges from an unwritten entry until one repeats. */
  method CycleMember(ghost s: Stage, nums: array<int>, refs: array<Reference>, refCount: nat, start: nat)
    returns (entry: nat, ghost cycle: seq<nat>)
    requires s.Valid() && s.Stuck()
    requires refCount <= refs.Length
    requires s.nums == nums[..] && s.refs == refs[..refCount]
    requires start < nums.Length && !s.written[start]
    ensures BlockedCycle(s, cycle) && entry == cycle[0]
  {
    var seen := new bool[nums.Length](_ => false);
    ghost var path: seq<nat> := [];
    entry := start;
    while !seen[entry]
      invariant Walk(s, path, entry) && Marked(seen[..], path)
      decreases nums.Length - |path|
    {
      MarkedStep(seen[..], path, entry);
      ghost var marks := seen[..][entry := true];
      seen[entry] := true;
      assert seen[..] == marks;
      var blocker := NextBlocker(s, path, nums, refs, refCount, entry);
      if blocker == UNSET {
        break;
      }
      path := path + [entry];
      entry := blocker;
    }
    cycle := WalkCloses(s, path, entry);
  }

  /** The lowest block that no entry holds and no live key refers to. */
  ghost predicate LowestSpare(used: seq<bool>, refs: seq<Reference>, num: int) {
    && 0 <= num < |used| && !used[num] && Ready(refs, num, UNSET)
    && forall v :: 0 <= v < num ==> used[v] || !Ready(refs, v, UNSET)
  }

  method Relocate(nums: array<int>, entry: nat, refs: array<Reference>, refCount: nat, used: array<bool>) returns (ok: bool)
    requires entry < nums.Length && refCount <= refs.Length
    requires 0 <= nums[entry] < used.Length && used[nums[entry]]
    modifies nums, used
    ensures ok <==> exists num :: 0 <= num < used.Length && !old(used[num]) && Ready(refs[..refCount], num, UNSET)
    ensures ok ==> LowestSpare(old(used[..]), refs[..refCount], nums[entry])
    ensures ok ==> nums[..] == old(nums[..])[entry := nums[entry]]
    ensures ok ==> used[..] == old(used[..])[old(nums[entry]) := false][nums[entry] := true]
    ensures !ok ==> nums[..] == old(nums[..]) && used[..] == old(used[..])
  {
    for num := 0 to used.Length
      invariant nums[..] == old(nums[..]) && used[..] == old(used[..])
      invariant forall v :: 0 <= v < num ==> used[v] || !Ready(refs[..refCount], v, UNSET)
    {
      var ready := BlockReady(refs, refCount, num, UNSET);
      if !used[num] && ready {
        used[nums[entry]] := false;
        nums[entry] := num;
        used[num] := true;
        return true;
      }
    }
    return false;
  }

  method Repoint(refs: array<Reference>, refCount: nat, entry: nat, num: nat)
    requires refCount <= refs.Length
    modifies refs
    ensures refs[..refCount] == Repointed(old(refs[..refCount]), entry, num)
  {
    ghost var before := refs[..refCount];
    for r := 0 to refCount
      invariant forall i :: 0 <= i < r ==> refs[i] == Repointed(before, entry, num)[i]
      invariant forall i :: r <= i < refCount ==> refs[i] == before[i]
    {
      if refs[r].entry == entry {
        refs[r] := Reference(entry, num);
      }
    }
  }

  ghost predicate IsFirstReady(s: Stage, entry: nat)
    requires |s.nums| == |s.written|
  {
    && entry < |s.nums| && !s.written[entry] && Ready(s.refs, s.nums[entry], entry)
    && forall i :: 0 <= i < entry ==> s.written[i] || !Ready(s.refs, s.nums[i], i)
  }

  /** The first unwritten entry whose block is ready, or the entry count if all are blocked. */
  method FirstReady(ghost s: Stage, nums: array<int>, refs: array<Reference>, refCount: nat, written: array<bool>) returns (entry: nat)
    requires refCount <= refs.Length && written.Length == nums.Length
    requires s.nums == nums[..] && s.refs == refs[..refCount] && s.written == written[..]
    ensures entry < nums.Length ==> IsFirstReady(s, entry)
    ensures entry >= nums.Length ==> s.Stuck()
  {
    entry := 0;
    while entry < nums.Length
      invariant entry <= nums.Length
      invariant forall i :: 0 <= i < entry ==> s.written[i] || !Ready(s.refs, s.nums[i], i)
    {
      var ready := BlockReady(refs, refCount, nums[entry], entry);
      if !written[entry] && ready {
        break;
      }
      entry := entry + 1;
    }
  }

  method FirstUnwritten(written: array<bool>) returns (entry: nat)
    requires exists i :: 0 <= i < written.Length && !written[i]
    ensures entry < written.Length && !written[entry]
    ensures forall i :: 0 <= i < entry ==> written[i]
  {
    entry := 0;
    while written[entry]
      invariant entry < written.Length
      invariant forall i :: 0 <= i < entry ==> written[i]
      decreases written.Length - entry
    {
      entry := entry + 1;
    }
  }

  /** Breaks a cycle: relocates one of its members, which then is the next entry to write. */
  method BreakCycle(ghost s: Stage, nums: array<int>, refs: array<Reference>, refCount: nat, used: array<bool>, written: array<bool>)
    returns (ok: bool, entry: nat, ghost cycle: seq<nat>)
    requires s.Valid() && s.Stuck()
    requires DisjointGroups(s.groups) && DistinctBaseline(s.owned) && forall i :: 0 <= i < |s.groups| ==> s.groups[i] != []
    requires refCount <= refs.Length && written.Length == nums.Length && used != written
    requires s.nums == nums[..] && s.used == used[..] && s.refs == refs[..refCount] && s.written == written[..]
    requires exists i :: 0 <= i < written.Length && !written[i]
    modifies nums, used
    ensures TotalKeys(s.groups) <= used.Length ==> ok
    ensures BlockedCycle(s, cycle) && cycle[0] == entry
    ensures ok ==> LowestSpare(s.used, s.refs, nums[entry])
    ensures ok ==> nums[..] == s.nums[entry := nums[entry]]
    ensures ok ==> used[..] == s.used[s.nums[entry] := false][nums[entry] := true]
  {
    entry := FirstUnwritten(written);
    entry, cycle := CycleMember(s, nums, refs, refCount, entry);
    if TotalKeys(s.groups) <= used.Length {
      StuckLeavesFreeBlock(s, entry);
    }
    ok := Relocate(nums, entry, refs, refCount, used);
  }

  /** Every live key already points at its entry's block. */
  ghost predicate Calm(groups: seq<seq<VipKey>>, owned: seq<Baseline>, claim: seq<int>) {
    forall r :: 0 <= r < |owned| ==> var o := Owner(groups, owned[r].key); 0 <= o < |claim| && owned[r].num == claim[o]
  }

  lemma CalmNeverStuck(s: Stage, e: nat)
    requires s.Valid() && s.nums == s.claim && Calm(s.groups, s.owned, s.claim)
    requires e < |s.nums| && !s.written[e]
    ensures !s.Stuck()
  {
    forall r | 0 <= r < |s.refs| && s.refs[r].num == s.nums[e] ensures s.refs[r].entry == e {
      assert s.owned[r].num == s.claim[s.OwnerOf(r)];
    }
    assert Ready(s.refs, s.nums[e], e);
  }

  /** One iteration of the ordering loop: the first ready entry is written to the block it has;
      if none is ready, a member of a blocked cycle is written to the lowest spare block. */
  ghost predicate WriteStep(s: Stage, e: nat, t: Stage) {
    && s.Valid() && e < |s.nums| && !s.written[e]
    && e < |t.nums| && 0 <= t.nums[e] < |s.used| && t == AfterWrite(s, e, t.nums[e])
    && if s.Stuck() then InCycle(s, e) && LowestSpare(s.used, s.refs, t.nums[e])
       else IsFirstReady(s, e) && t.nums[e] == s.nums[e]
  }

  /** The whole loop: `stages[t]` is the state in which `order[t]` was chosen. */
  ghost predicate Trace(stages: seq<Stage>, order: seq<nat>) {
    |stages| == |order| + 1 && forall t :: 0 <= t < |order| ==> StepAt(stages, order, t)
  }

  ghost predicate StepAt(stages: seq<Stage>, order: seq<nat>, t: nat)
    requires t < |order| && |stages| == |order| + 1
  {
    WriteStep(stages[t], order[t], stages[t + 1])
  }

  /** The state after the claim: nothing is written, and every entry has the block it claimed.
      `Valid` leaves no choice for the references and the used blocks. */
  ghost predicate Start(s: Stage, groups: seq<seq<VipKey>>, owned: seq<Baseline>, maxVips: nat, claim: seq<int>) {
    && s.groups == groups && s.owned == owned && |s.used| == maxVips && s.claim == claim && s.nums == claim
    && s.Valid() && forall i :: 0 <= i < |s.written| ==> !s.written[i]
  }

  lemma TraceExtends(stages: seq<Stage>, order: seq<nat>, e: nat, t: Stage)
    requires Trace(stages, order) && WriteStep(stages[|order|], e, t)
    ensures Trace(stages + [t], order + [e])
  {
    forall i | 0 <= i <= |order| ensures StepAt(stages + [t], order + [e], i) {
      assert i < |order| ==> StepAt(stages, order, i);
    }
  }

  /** What a stage of the loop knows follows from how far the loop has come. */
  lemma {:induction false} TraceSoFar(stages: seq<Stage>, order: seq<nat>, t: nat)
    requires Trace(stages, order) && t <= |order| && |stages[0].written| == |stages[0].nums|
    requires forall i :: 0 <= i < |stages[0].written| ==> !stages[0].written[i]
    ensures |stages[t].written| == |stages[t].nums| == |stages[0].nums| && stages[t].claim == stages[0].claim
    ensures forall i :: 0 <= i < |stages[t].written| ==> (stages[t].written[i] <==> i in order[..t])
  {
    if t > 0 {
      TraceSoFar(stages, order, t - 1);
      assert StepAt(stages, order, t - 1);
      assert order[..t] == order[..t - 1] + [order[t - 1]];
    }
  }

  /** A written entry keeps its block. */
  lemma {:induction false} WrittenStays(stages: seq<Stage>, order: seq<nat>, t: nat, u: nat, i: nat)
    requires Trace(stages, order) && t <= u <= |order| && i < |stages[t].nums| && i < |stages[t].written| && stages[t].written[i]
    ensures i < |stages[u].nums| && i < |stages[u].written| && stages[u].written[i] && stages[u].nums[i] == stages[t].nums[i]
    decreases u - t
  {
    if t < u {
      assert StepAt(stages, order, t);
      WrittenStays(stages, order, t + 1, u, i);
    }
  }

  /** Precision of the cycle break: an entry leaves the block it claimed exactly when nothing was
      ready at its turn, and it then stands on a cycle of blocked entries of that moment. */
  lemma MovedExactly(stages: seq<Stage>, order: seq<nat>, groups: seq<seq<VipKey>>, owned: seq<Baseline>, maxVips: nat, claim: seq<int>, t: nat)
    requires Trace(stages, order) && Start(stages[0], groups, owned, maxVips, claim) && t < |order|
    ensures order[t] < |claim| == |stages[|order|].nums| && |stages[t].nums| == |stages[t].written|
    ensures stages[|order|].nums[order[t]] != claim[order[t]] <==> stages[t].Stuck()
    ensures stages[t].Stuck() ==> InCycle(stages[t], order[t])
  {
    assert StepAt(stages, order, t);
    TraceSoFar(stages, order, t);
    TraceSoFar(stages, order, |order|);
    WrittenStays(stages, order, t + 1, |order|, order[t]);
  }

  /** The ordering loop's invariant. */
  ghost predicate Progress(s: Stage, order: seq<nat>) {
    && s.Valid()
    && Distinct(order)
    && (forall i :: 0 <= i < |s.nums| ==> (s.written[i] <==> i in order))
    && SafeOrder(s.groups, s.owned, s.nums, order)
  }

  lemma ProgressExtends(s: Stage, t: Stage, order: seq<nat>, e: nat)
    requires |s.nums| == |s.written| == |t.nums| && e < |s.nums| && !s.written[e] && t.written == s.written[e := true]
    requires Distinct(order) && forall i :: 0 <= i < |s.nums| ==> (s.written[i] <==> i in order)
    requires t.Valid() && SafeOrder(t.groups, t.owned, t.nums, order + [e])
    ensures Progress(t, order + [e])
  {
  }

  lemma WriteInPlace(s: Stage, order: seq<nat>, e: nat)
    requires Progress(s, order) && IsFirstReady(s, e)
    ensures var t := AfterWrite(s, e, s.nums[e]);
            Progress(t, order + [e]) && WriteStep(s, e, t) && t.nums == s.nums && t.used == s.used
  {
    SafeOrderExtends(s, order, e, s.nums[e]);
    AfterWriteValid(s, e, s.nums[e]);
    assert s.nums[e := s.nums[e]] == s.nums;
    ProgressExtends(s, AfterWrite(s, e, s.nums[e]), order, e);
  }

  lemma WriteMoved(s: Stage, order: seq<nat>, e: nat, num: nat, cycle: seq<nat>)
    requires Progress(s, order)
    requires s.Stuck() && BlockedCycle(s, cycle) && cycle[0] == e
    requires LowestSpare(s.used, s.refs, num)
    ensures var t := AfterWrite(s, e, num); Progress(t, order + [e]) && WriteStep(s, e, t)
  {
    assert Ready(s.refs, num, e);
    SafeOrderExtends(s, order, e, num);
    AfterWriteValid(s, e, num);
    ProgressExtends(s, AfterWrite(s, e, num), order, e);
    assert InCycle(s, e);
  }

  /** Chooses the entry of the next iteration, relocating a cycle member if nothing is ready. */
  method Choose(ghost s: Stage, ghost order: seq<nat>, nums: array<int>, refs: array<Reference>, refCount: nat, used: array<bool>,
                written: array<bool>)
    returns (ok: bool, entry: nat)
    requires Progress(s, order)
    requires DisjointGroups(s.groups) && DistinctBaseline(s.owned) && forall i :: 0 <= i < |s.groups| ==> s.groups[i] != []
    requires refCount <= refs.Length && written.Length == nums.Length && used != written
    requires s.nums == nums[..] && s.used == used[..] && s.refs == refs[..refCount] && s.written == written[..]
    requires |order| < nums.Length
    modifies nums, used
    ensures TotalKeys(s.groups) <= used.Length ==> ok
    ensures ok ==> entry < nums.Length && !s.written[entry] && 0 <= nums[entry] < used.Length
    ensures ok ==> AfterWrite(s, entry, nums[entry]).nums == nums[..] && AfterWrite(s, entry, nums[entry]).used == used[..]
    ensures ok ==> Progress(AfterWrite(s, entry, nums[entry]), order + [entry])
    ensures ok ==> WriteStep(s, entry, AfterWrite(s, entry, nums[entry]))
    ensures ok && s.nums == s.claim && Calm(s.groups, s.owned, s.claim) ==> nums[..] == s.claim
  {
    ghost var missing := MissesOne(order, nums.Length);
    entry := FirstReady(s, nums, refs, refCount, written);
    if entry < nums.Length {
      WriteInPlace(s, order, entry);
      return true, entry;
    }
    if s.nums == s.claim && Calm(s.groups, s.owned, s.claim) {
      CalmNeverStuck(s, missing);
    }
    ghost var cycle;
    ok, entry, cycle := BreakCycle(s, nums, refs, refCount, used, written);
    if ok {
      WriteMoved(s, order, entry, nums[entry], cycle);
    }
  }

  /** The ordering loop. Every iteration is a step of the trace: nothing but a member of a cycle
      of entries that block each other at that moment is ever relocated. */
  method Order(groups: seq<seq<VipKey>>, ghost owned: seq<Baseline>, ghost first: set<nat>, nums: array<int>,
               refs: array<Reference>, refCount: nat, used: array<bool>)
    returns (ok: bool, order: seq<nat>, ghost stages: seq<Stage>)
    requires refCount <= refs.Length && nums.Length == |groups|
    requires DisjointGroups(groups) && DistinctBaseline(owned) && forall i :: 0 <= i < |groups| ==> groups[i] != []
    requires Stage(groups, owned, nums[..], first, nums[..], used[..], refs[..refCount], seq(|groups|, _ => false)).Valid()
    modifies nums, refs, used
    ensures TotalKeys(groups) <= used.Length ==> ok
    ensures ok ==> |order| == |groups| && Trace(stages, order) && Start(stages[0], groups, owned, used.Length, old(nums[..]))
    ensures ok ==> var s := stages[|order|];
                   s.groups == groups && s.owned == owned && s.nums == nums[..] && s.used == used[..] && Progress(s, order)
    ensures ok && Calm(groups, owned, old(nums[..])) ==> nums[..] == old(nums[..])
  {
    var written := new bool[nums.Length](_ => false);
    ghost var claim := nums[..];
    assert written[..] == seq(|groups|, _ => false);
    ghost var s := Stage(groups, owned, claim, first, nums[..], used[..], refs[..refCount], written[..]);
    order, stages := [], [s];
    while |order| < nums.Length
      invariant s == Stage(groups, owned, claim, first, nums[..], used[..], refs[..refCount], written[..])
      invariant |order| <= nums.Length
      invariant Progress(s, order)
      invariant Trace(stages, order) && stages[|order|] == s && Start(stages[0], groups, owned, used.Length, claim)
      invariant Calm(groups, owned, claim) ==> s.nums == claim
      decreases nums.Length - |order|
    {
      var entry;
      ok, entry := Choose(s, order, nums, refs, refCount, used, written);
      if !ok {
        return;
      }
      ghost var t := AfterWrite(s, entry, nums[entry]);
      TraceExtends(stages, order, entry, t);
      order, stages := order + [entry], stages + [t];
      written[entry] := true;
      Repoint(refs, refCount, entry, nums[entry]);
      s := t;
    }
    ok := true;
  }

  // ---- the planner --------------------------------------------------------------------

  /** Sums the key counts the way the source does, never exceeding the bound on the way. */
  method CountKeys(groups: seq<seq<VipKey>>, maxVips: nat) returns (ok: bool)
    ensures ok <==> (forall i :: 0 <= i < |groups| ==> groups[i] != []) && TotalKeys(groups) <= maxVips
  {
    var keyCount := 0;
    for i := 0 to |groups|
      invariant forall j :: 0 <= j < i ==> groups[j] != []
      invariant keyCount == TotalKeys(groups[..i]) <= maxVips
    {
      TotalKeysPrefix(groups, i + 1);
      assert groups[..i + 1][..i] == groups[..i];
      if groups[i] == [] || |groups[i]| > maxVips - keyCount {
        return false;
      }
      keyCount := keyCount + |groups[i]|;
    }
    assert groups[..|groups|] == groups;
    return true;
  }

  ghost function InitialReferences(groups: seq<seq<VipKey>>, owned: seq<Baseline>): seq<Reference>
    requires forall r :: 0 <= r < |owned| ==> Owner(groups, owned[r].key) != UNSET
  {
    seq(|owned|, r requires 0 <= r < |owned| => Reference(Owner(groups, owned[r].key), owned[r].num))
  }

  /** The reference a baseline row gives rise to, if any entry wants its key. */
  ghost function RowReference(groups: seq<seq<VipKey>>, row: Baseline): seq<Reference> {
    if Owner(groups, row.key) != UNSET then [Reference(Owner(groups, row.key), row.num)] else []
  }

  ghost function ReferencesOf(groups: seq<seq<VipKey>>, baseline: seq<Baseline>): seq<Reference> {
    if baseline == [] then []
    else ReferencesOf(groups, baseline[..|baseline| - 1]) + RowReference(groups, baseline[|baseline| - 1])
  }

  lemma ReferencesStep(groups: seq<seq<VipKey>>, baseline: seq<Baseline>, b: nat)
    requires b < |baseline|
    ensures ReferencesOf(groups, baseline[..b + 1]) == ReferencesOf(groups, baseline[..b]) + RowReference(groups, baseline[b])
  {
    assert baseline[..b + 1][..b] == baseline[..b];
  }

  lemma {:induction false} ReferencesOfOwned(groups: seq<seq<VipKey>>, baseline: seq<Baseline>)
    ensures ReferencesOf(groups, baseline) == InitialReferences(groups, Owned(groups, baseline))
  {
    if baseline != [] {
      ReferencesOfOwned(groups, baseline[..|baseline| - 1]);
    }
  }

  lemma InBaselineStep(baseline: seq<Baseline>, b: nat)
    requires b < |baseline|
    ensures forall v: nat :: InBaseline(baseline[..b + 1], v) <==> InBaseline(baseline[..b], v) || v == baseline[b].num
  {
    assert baseline[..b + 1] == baseline[..b] + [baseline[b]];
    forall v: nat | InBaseline(baseline[..b], v) ensures InBaseline(baseline[..b + 1], v) {
      var a :| 0 <= a < b && baseline[..b][a].num == v;
      assert baseline[..b + 1][a].num == v;
    }
    assert baseline[..b + 1][b] == baseline[b];
  }

  /** `marks` flags exactly the numbers the baseline mentions. */
  ghost predicate Mentions(marks: seq<bool>, baseline: seq<Baseline>) {
    forall v: nat :: v < |marks| ==> (marks[v] <==> InBaseline(baseline, v))
  }

  lemma MentionsStep(marks: seq<bool>, baseline: seq<Baseline>, b: nat)
    requires b < |baseline| && Mentions(marks, baseline[..b]) && baseline[b].num < |marks|
    ensures Mentions(marks[baseline[b].num := true], baseline[..b + 1])
  {
    InBaselineStep(baseline, b);
  }

  method Mark(baseline: seq<Baseline>, b: nat, baselineNums: array<bool>)
    requires b < |baseline| && Mentions(baselineNums[..], baseline[..b]) && baseline[b].num < baselineNums.Length
    modifies baselineNums
    ensures Mentions(baselineNums[..], baseline[..b + 1])
  {
    MentionsStep(baselineNums[..], baseline, b);
    ghost var marks := baselineNums[..][baseline[b].num := true];
    baselineNums[baseline[b].num] := true;
    assert baselineNums[..] == marks;
  }

  method AddReference(groups: seq<seq<VipKey>>, row: Baseline, refs: array<Reference>, refCount: nat) returns (refCount': nat)
    requires refCount < refs.Length
    modifies refs
    ensures refCount <= refCount' <= refCount + 1
    ensures refs[..refCount'] == old(refs[..refCount]) + RowReference(groups, row)
  {
    var owner := FindOwner(groups, row.key);
    refCount' := refCount;
    if owner != UNSET {
      refs[refCount] := Reference(owner, row.num);
      refCount' := refCount + 1;
    }
  }

  /** Collects the references of the live map, and which numbers the baseline mentions. */
  method CollectReferences(groups: seq<seq<VipKey>>, baseline: seq<Baseline>, refs: array<Reference>, baselineNums: array<bool>)
    returns (ok: bool, refCount: nat)
    requires |baseline| <= refs.Length
    requires forall v :: 0 <= v < baselineNums.Length ==> !baselineNums[v]
    modifies refs, baselineNums
    ensures ok <==> forall b :: 0 <= b < |baseline| ==> baseline[b].num < baselineNums.Length
    ensures ok ==> refCount <= refs.Length && refs[..refCount] == ReferencesOf(groups, baseline)
    ensures ok ==> Mentions(baselineNums[..], baseline)
  {
    refCount := 0;
    for b := 0 to |baseline|
      invariant forall a :: 0 <= a < b ==> baseline[a].num < baselineNums.Length
      invariant refCount <= b && refs[..refCount] == ReferencesOf(groups, baseline[..b])
      invariant Mentions(baselineNums[..], baseline[..b])
    {
      if baseline[b].num >= baselineNums.Length {
        return false, 0;
      }
      Mark(baseline, b, baselineNums);
      refCount := AddReference(groups, baseline[b], refs, refCount);
      ReferencesStep(groups, baseline, b);
    }
    assert baseline[..|baseline|] == baseline;
    ok := true;
  }

  method ReleaseList(baseline: seq<Baseline>, nums: seq<int>, baselineNums: array<bool>, used: array<bool>) returns (release: seq<nat>)
    requires baselineNums.Length == used.Length
    requires Assigned(nums, used[..])
    requires Mentions(baselineNums[..], baseline)
    ensures ExactRelease(baseline, used.Length, nums, release)
  {
    release := [];
    for num := 0 to used.Length
      invariant forall i :: 0 <= i < |release| ==> release[i] < num
      invariant forall i, j :: 0 <= i < j < |release| ==> release[i] < release[j]
      invariant forall v: nat :: v in release <==> v < num && v !in nums && InBaseline(baseline, v)
    {
      assert Held(nums, used[..], num);
      assert used[num] <==> num in nums;
      if baselineNums[num] && !used[num] {
        release := release + [num];
      }
    }
  }

  /** A plan made for the rows that have an owner is a plan for the whole baseline. */
  lemma SafeOrderWholeBaseline(groups: seq<seq<VipKey>>, baseline: seq<Baseline>, nums: seq<int>, order: seq<nat>)
    requires SafeOrder(groups, Owned(groups, baseline), nums, order)
    ensures SafeOrder(groups, baseline, nums, order)
  {
    var owned := Owned(groups, baseline);
    forall t, b | 0 <= t < |order| && 0 <= b < |baseline| && StillAway(groups, baseline[b].key, order[..t + 1])
      ensures baseline[b].num != nums[order[t]]
    {
      var r :| 0 <= r < |owned| && owned[r] == baseline[b];
      assert StillAway(groups, owned[r].key, order[..t + 1]);
    }
  }

  lemma SettledReleasesNothing(groups: seq<seq<VipKey>>, baseline: seq<Baseline>, maxVips: nat, target: seq<int>, release: seq<nat>)
    requires Settled(groups, baseline, target)
    requires ExactRelease(baseline, maxVips, target, release)
    ensures release == []
  {
    forall v: nat | InBaseline(baseline, v) ensures v in target {
      var b :| 0 <= b < |baseline| && baseline[b].num == v;
      assert target[Owner(groups, baseline[b].key)] == v;
    }
    FirstIsElement(release);
  }

  /** A settled map claims what it has, so no entry is ever blocked. */
  lemma SettledStays(groups: seq<seq<VipKey>>, baseline: seq<Baseline>, target: seq<int>, mid: seq<int>, claim: seq<int>)
    requires DisjointGroups(groups) && Settled(groups, baseline, target)
    requires Preference(groups, baseline, mid, claim)
    ensures claim == target && Calm(groups, Owned(groups, baseline), claim)
  {
    SettledClaim(groups, baseline, mid, claim, target, |groups|);
    assert claim[..|groups|] == claim && target[..|groups|] == target;
    var owned := Owned(groups, baseline);
    forall r | 0 <= r < |owned| ensures owned[r].num == claim[Owner(groups, owned[r].key)] {
      var b :| 0 <= b < |baseline| && baseline[b] == owned[r];
    }
  }

  /** What the caller learns about the blocks: every entry first gets the block the documented
      preference gives it, and keeps it unless nothing is ready at its turn in the order; then it
      is a member of a cycle of blocked entries and gets the lowest spare block. */
  ghost predicate FollowsPreference(groups: seq<seq<VipKey>>, baseline: seq<Baseline>, maxVips: nat, nums: seq<int>, order: seq<nat>,
                                    mid: seq<int>, claim: seq<int>, stages: seq<Stage>) {
    && Preference(groups, baseline, mid, claim)
    && Trace(stages, order) && Start(stages[0], groups, Owned(groups, baseline), maxVips, claim)
    && stages[|order|].nums == nums
  }

  /** Only cycle members leave the block they claimed. */
  lemma OnlyCycleMembersMove(groups: seq<seq<VipKey>>, baseline: seq<Baseline>, maxVips: nat, nums: seq<int>, order: seq<nat>,
                             mid: seq<int>, claim: seq<int>, stages: seq<Stage>, i: nat)
    requires FollowsPreference(groups, baseline, maxVips, nums, order, mid, claim, stages)
    requires |order| == |groups| && Distinct(order) && (forall t :: 0 <= t < |order| ==> order[t] < |groups|) && i < |groups|
    ensures |nums| == |claim| == |groups|
    ensures nums[i] != claim[i] <==> exists t :: 0 <= t < |order| && order[t] == i && |stages[t].nums| == |stages[t].written| &&
                                                  stages[t].Stuck() && InCycle(stages[t], i)
  {
    TraceSoFar(stages, order, |order|);
    var t := OrderHits(order, i);
    MovedExactly(stages, order, groups, Owned(groups, baseline), maxVips, claim, t);
  }

  /** An order that lists every entry once lists this one. */
  lemma OrderHits(order: seq<nat>, i: nat) returns (t: nat)
    requires Distinct(order) && i < |order| && forall t :: 0 <= t < |order| ==> order[t] < |order|
    ensures t < |order| && order[t] == i
  {
    if i !in order {
      DistinctFits(order, Below(|order|) - {i});
    }
    t :| 0 <= t < |order| && order[t] == i;
  }

  /** The part of the planner that runs on accepted input. */
  method AllocateValid(groups: seq<seq<VipKey>>, baseline: seq<Baseline>, nums: array<int>, refs: array<Reference>, refCount: nat,
                       used: array<bool>)
    returns (order: seq<nat>, ghost mid: seq<int>, ghost claim: seq<int>, ghost stages: seq<Stage>)
    requires DisjointGroups(groups) && DistinctBaseline(baseline) && ValidInput(groups, baseline, used.Length)
    requires nums.Length == |groups| && forall i :: 0 <= i < nums.Length ==> nums[i] == UNSET
    requires refCount <= refs.Length && refs[..refCount] == ReferencesOf(groups, baseline)
    requires forall v :: 0 <= v < used.Length ==> !used[v]
    modifies nums, refs, used
    ensures Assigned(nums[..], used[..])
    ensures |order| == |groups| && Distinct(order) && SafeOrder(groups, baseline, nums[..], order)
    ensures FollowsPreference(groups, baseline, used.Length, nums[..], order, mid, claim, stages)
    ensures forall target :: Settled(groups, baseline, target) ==> nums[..] == target
  {
    ghost var owned := Owned(groups, baseline);
    OwnedDistinct(groups, baseline);
    ReferencesOfOwned(groups, baseline);
    var ok;
    ghost var first;
    ok, mid, first := Claim(groups, baseline, nums, used);
    claim := nums[..];
    assert Stage(groups, owned, claim, first, claim, used[..], refs[..refCount], seq(|groups|, _ => false)).Mirrors();
    ok, order, stages := Order(groups, owned, first, nums, refs, refCount, used);
    SafeOrderWholeBaseline(groups, baseline, nums[..], order);
    forall target | Settled(groups, baseline, target) ensures nums[..] == target {
      SettledStays(groups, baseline, target, mid, claim);
    }
  }

  /** The planner. It succeeds on exactly the inputs it accepts, at any load up to one block
      per key; its plan is safe, keeps the documented preference except for members of
      blocked cycles, and leaves a settled map alone. The source's clean-up after a failed
      claim or ordering has no counterpart: neither fails on accepted input. */
  method Allocate(groups: seq<seq<VipKey>>, baseline: seq<Baseline>, maxVips: nat, nums: array<int>)
    returns (ok: bool, plan: Plan, ghost mid: seq<int>, ghost claim: seq<int>, ghost stages: seq<Stage>)
    requires DisjointGroups(groups) && DistinctBaseline(baseline)
    requires nums.Length == |groups|
    modifies nums
    ensures ok <==> ValidInput(groups, baseline, maxVips)
    ensures !ok ==> plan == Plan([], []) && forall i :: 0 <= i < nums.Length ==> nums[i] == UNSET
    ensures ok ==> SafePlan(groups, baseline, maxVips, nums[..], plan)
    ensures ok ==> FollowsPreference(groups, baseline, maxVips, nums[..], plan.writeOrder, mid, claim, stages)
    ensures ok ==> forall target :: Settled(groups, baseline, target) ==> nums[..] == target && plan.release == []
  {
    ok, plan, mid, claim, stages := false, Plan([], []), [], [], [];
    for i := 0 to nums.Length
      invariant forall j :: 0 <= j < i ==> nums[j] == UNSET
    {
      nums[i] := UNSET;
    }
    if |groups| > maxVips || |baseline| > maxVips {
      return;
    }
    var counted := CountKeys(groups, maxVips);
    if !counted {
      return;
    }
    var used, baselineNums := new bool[maxVips](_ => false), new bool[maxVips](_ => false);
    var refs := new Reference[maxVips](_ => Reference(0, 0));
    var inRange, refCount := CollectReferences(groups, baseline, refs, baselineNums);
    if !inRange {
      return;
    }
    var order;
    order, mid, claim, stages := AllocateValid(groups, baseline, nums, refs, refCount, used);
    var release := ReleaseList(baseline, nums[..], baselineNums, used);
    ok, plan := true, Plan(order, release);
    forall target | Settled(groups, baseline, target) ensures nums[..] == target && plan.release == [] {
      SettledReleasesNothing(groups, baseline, maxVips, target, release);
    }
  }
}
