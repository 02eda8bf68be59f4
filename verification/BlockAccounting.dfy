/** The accounting behind block allocation: which entry owns a key, what the planner knows
    between two writes, and why a free block always remains.

    A configuration is a sequence of groups, each a sequence of keys; entry `i` is
    `groups[i]`. The sentinel 0xffffffff of the source is -1 here and MAX_VIPS is a
    parameter, so nothing below depends on a width. */
module BlockAccounting {
  import opened Types
  import opened Counting

  const UNSET: int := -1

  datatype Baseline = Baseline(key: VipKey, num: nat)
  datatype Reference = Reference(entry: nat, num: nat)

  // ---- what the caller supplies ------------------------------------------------

  /** No key belongs to two entries (configuration validation rejects such files). */
  ghost predicate DisjointGroups(groups: seq<seq<VipKey>>) {
    forall i, j, key :: 0 <= i < |groups| && 0 <= j < |groups| && key in groups[i] && key in groups[j] ==> i == j
  }

  ghost predicate DistinctBaseline(baseline: seq<Baseline>) {
    forall a, b :: 0 <= a < b < |baseline| ==> baseline[a].key != baseline[b].key
  }

  function TotalKeys(groups: seq<seq<VipKey>>): nat {
    if groups == [] then 0 else TotalKeys(groups[..|groups| - 1]) + |groups[|groups| - 1]|
  }

  /** What the planner checks before it starts. */
  ghost predicate ValidInput(groups: seq<seq<VipKey>>, baseline: seq<Baseline>, maxVips: nat) {
    && |groups| <= maxVips
    && |baseline| <= maxVips
    && (forall i :: 0 <= i < |groups| ==> groups[i] != [])
    && TotalKeys(groups) <= maxVips
    && (forall b :: 0 <= b < |baseline| ==> baseline[b].num < maxVips)
  }

  ghost function AllKeys(groups: seq<seq<VipKey>>): set<VipKey> {
    set i, k | 0 <= i < |groups| && 0 <= k < |groups[i]| :: groups[i][k]
  }

  lemma {:induction false} TotalKeysPrefix(groups: seq<seq<VipKey>>, n: nat)
    requires n <= |groups|
    ensures TotalKeys(groups[..n]) <= TotalKeys(groups)
  {
    if n < |groups| {
      TotalKeysPrefix(groups[..|groups| - 1], n);
      assert groups[..|groups| - 1][..n] == groups[..n];
    } else {
      assert groups[..n] == groups;
    }
  }

  lemma {:induction false} AllKeysFit(groups: seq<seq<VipKey>>)
    ensures |AllKeys(groups)| <= TotalKeys(groups)
  {
    if groups != [] {
      var front, last := groups[..|groups| - 1], groups[|groups| - 1];
      AllKeysFit(front);
      var lastKeys := set x | x in last;
      ElementsFit(last);
      assert AllKeys(groups) <= AllKeys(front) + lastKeys by {
        forall x | x in AllKeys(groups) ensures x in AllKeys(front) + lastKeys {
          var i, k :| 0 <= i < |groups| && 0 <= k < |groups[i]| && x == groups[i][k];
          if i < |front| {
            assert front[i][k] == x;
          }
        }
      }
      SubsetCount(AllKeys(groups), AllKeys(front) + lastKeys);
    } else {
      assert AllKeys(groups) == {};
    }
  }

  lemma {:induction false} EntriesFit(groups: seq<seq<VipKey>>)
    requires forall i :: 0 <= i < |groups| ==> groups[i] != []
    ensures |groups| <= TotalKeys(groups)
  {
    if groups != [] {
      EntriesFit(groups[..|groups| - 1]);
    }
  }

  // ---- who owns a key ----------------------------------------------------------

  ghost function Owner(groups: seq<seq<VipKey>>, key: VipKey): (i: int)
    ensures UNSET <= i < |groups|
    ensures i != UNSET ==> key in groups[i] && forall j :: 0 <= j < i ==> key !in groups[j]
    ensures i == UNSET ==> forall j :: 0 <= j < |groups| ==> key !in groups[j]
  {
    if groups == [] then UNSET
    else
      var i := Owner(groups[..|groups| - 1], key);
      if i != UNSET then i else if key in groups[|groups| - 1] then |groups| - 1 else UNSET
  }

  lemma OwnerIs(groups: seq<seq<VipKey>>, key: VipKey, i: nat)
    requires DisjointGroups(groups)
    requires i < |groups| && key in groups[i]
    ensures Owner(groups, key) == i
  {
  }

  /** The baseline rows some entry still wants, in baseline order: what `refs` starts from. */
  ghost function Owned(groups: seq<seq<VipKey>>, baseline: seq<Baseline>): (owned: seq<Baseline>)
    ensures |owned| <= |baseline|
    ensures forall r :: 0 <= r < |owned| ==> owned[r] in baseline && Owner(groups, owned[r].key) != UNSET
    ensures forall b :: 0 <= b < |baseline| && Owner(groups, baseline[b].key) != UNSET ==> baseline[b] in owned
  {
    if baseline == [] then []
    else
      var front, last := baseline[..|baseline| - 1], baseline[|baseline| - 1];
      var rest := Owned(groups, front);
      assert forall b :: 0 <= b < |front| ==> front[b] == baseline[b];
      if Owner(groups, last.key) != UNSET then rest + [last] else rest
  }

  lemma {:induction false} OwnedDistinct(groups: seq<seq<VipKey>>, baseline: seq<Baseline>)
    requires DistinctBaseline(baseline)
    ensures DistinctBaseline(Owned(groups, baseline))
  {
    if baseline != [] {
      OwnedDistinct(groups, baseline[..|baseline| - 1]);
    }
  }

  // ---- the state of the ordering loop --------------------------------------------

  /** Everything the ordering loop knows: the input (`groups`, `owned`), the outcome of the
      claim phase (`claim`, `first`) and the arrays it updates. `first` holds the entries
      that claimed one of their own baseline blocks. */
  datatype Stage = Stage(groups: seq<seq<VipKey>>, owned: seq<Baseline>, claim: seq<int>, first: set<nat>,
                         nums: seq<int>, used: seq<bool>, refs: seq<Reference>, written: seq<bool>)
  {
    ghost function OwnerOf(r: nat): int
      requires r < |owned|
    {
      Owner(groups, owned[r].key)
    }

    ghost predicate HasReference(i: int, num: int) {
      exists r :: 0 <= r < |owned| && OwnerOf(r) == i && owned[r].num == num
    }

    ghost predicate ClaimedFirst(num: int) {
      exists i :: i in first && i < |claim| && claim[i] == num
    }

    /** An entry that claimed a baseline block refers to it; every block that any other
        entry refers to was claimed by one that did. */
    ghost predicate Claimed() {
      && |claim| == |groups|
      && Distinct(claim)
      && (forall i :: i in first ==> i < |groups|)
      && (forall i :: 0 <= i < |claim| ==> Anchored(i))
      && (forall r :: 0 <= r < |owned| ==> Accounted(r))
    }

    ghost predicate Anchored(i: nat)
      requires i < |claim|
    {
      i in first ==> HasReference(i, claim[i])
    }

    ghost predicate Accounted(r: nat)
      requires r < |owned|
    {
      OwnerOf(r) in first || ClaimedFirst(owned[r].num)
    }

    /** `refs` mirrors the live map: a written entry's keys point at its new block, every
        other key still points where the baseline had it. */
    ghost predicate Mirrors() {
      && |refs| == |owned|
      && |nums| == |groups| == |written|
      && forall r :: 0 <= r < |refs| ==>
           && refs[r].entry == OwnerOf(r)
           && refs[r].num == if written[refs[r].entry] then nums[refs[r].entry] else owned[r].num
    }

    ghost predicate Valid() {
      && Claimed() && Assigned(nums, used) && Mirrors()
      && (forall i :: 0 <= i < |nums| && !written[i] ==> nums[i] == claim[i])
    }

    /** The obligations of the caller that the capacity argument rests on. */
    ghost predicate Admissible() {
      && DisjointGroups(groups) && DistinctBaseline(owned)
      && (forall i :: 0 <= i < |groups| ==> groups[i] != [])
      && TotalKeys(groups) <= |used|
    }

    ghost predicate Stuck()
      requires |nums| == |written|
    {
      forall e :: 0 <= e < |nums| && !written[e] ==> !Ready(refs, nums[e], e)
    }

    /** `key` accounts for block `num`: either it is the first key of the written entry that
        owns the block, or it belongs to an unwritten entry that refers to the block while
        being meant for another one. */
    ghost predicate Pays(num: nat, key: VipKey)
      requires Mirrors()
    {
      || (exists w :: 0 <= w < |nums| && written[w] && nums[w] == num && 0 < |groups[w]| && groups[w][0] == key)
      || (exists r :: 0 <= r < |refs| && PaysBy(num, key, r))
    }

    ghost predicate PaysBy(num: nat, key: VipKey, r: nat)
      requires Mirrors() && r < |refs|
    {
      refs[r].num == num && owned[r].key == key && !written[refs[r].entry] && nums[refs[r].entry] != num
    }
  }

  /** Every entry has its own block, and `used` marks exactly those blocks. */
  ghost predicate Assigned(nums: seq<int>, used: seq<bool>) {
    && (forall i :: 0 <= i < |nums| ==> 0 <= nums[i] < |used| && used[nums[i]])
    && Distinct(nums)
    && (forall v :: 0 <= v < |used| ==> Held(nums, used, v))
  }

  /** A block marked as used belongs to some entry. */
  ghost predicate Held(nums: seq<int>, used: seq<bool>, v: nat)
    requires v < |used|
  {
    used[v] ==> v in nums
  }

  /** No entry other than `entry` still refers to block `num`. */
  ghost predicate Ready(refs: seq<Reference>, num: int, entry: int) {
    forall r :: 0 <= r < |refs| && refs[r].num == num ==> refs[r].entry == entry
  }

  // ---- the counting argument -----------------------------------------------------

  /** Whoever blocks an unwritten entry is itself unwritten. */
  lemma BlockerUnwritten(s: Stage, e: nat) returns (r: nat)
    requires s.Valid() && e < |s.nums| && !s.written[e] && !Ready(s.refs, s.nums[e], e)
    ensures r < |s.refs| && s.refs[r].num == s.nums[e] && s.refs[r].entry != e
    ensures !s.written[s.refs[r].entry]
  {
    r :| 0 <= r < |s.refs| && s.refs[r].num == s.nums[e] && s.refs[r].entry != e;
  }

  /** A block claimed from the free numbers is referred to only by entries that kept one of theirs. */
  lemma FallbackBlocker(s: Stage, e: nat, r: nat)
    requires s.Valid()
    requires e < |s.nums| && !s.written[e] && e !in s.first
    requires r < |s.refs| && s.refs[r].num == s.nums[e] && !s.written[s.refs[r].entry]
    ensures s.refs[r].entry in s.first
  {
    assert !s.ClaimedFirst(s.nums[e]);
    assert s.Accounted(r);
  }

  /** Some unwritten entry also refers to its own block. */
  lemma SelfReference(s: Stage, e: nat) returns (self: nat)
    requires s.Valid() && s.Stuck()
    requires e < |s.nums| && !s.written[e]
    ensures self < |s.refs|
    ensures !s.written[s.refs[self].entry] && s.refs[self].num == s.nums[s.refs[self].entry]
  {
    var j := e;
    if e !in s.first {
      var r := BlockerUnwritten(s, e);
      FallbackBlocker(s, e, r);
      j := s.refs[r].entry;
    }
    assert s.Anchored(j);
    self :| 0 <= self < |s.owned| && s.OwnerOf(self) == j && s.owned[self].num == s.claim[j];
  }

  lemma BusyBlockIsPaid(s: Stage, num: nat) returns (key: VipKey)
    requires s.Valid() && s.Stuck() && s.Admissible()
    requires num < |s.used|
    requires s.used[num] || !Ready(s.refs, num, UNSET)
    ensures s.Pays(num, key) && key in AllKeys(s.groups)
  {
    var r: nat;
    if s.used[num] {
      assert Held(s.nums, s.used, num);
      var w :| 0 <= w < |s.nums| && s.nums[w] == num;
      if s.written[w] {
        key := s.groups[w][0];
        return;
      }
      r := BlockerUnwritten(s, w);
    } else {
      r :| 0 <= r < |s.refs| && s.refs[r].num == num;
    }
    key := s.owned[r].key;
    assert s.PaysBy(num, key, r);
    var k :| 0 <= k < |s.groups[s.refs[r].entry]| && s.groups[s.refs[r].entry][k] == key;
  }

  /** A paying key determines its entry, and how that entry pays. */
  lemma PayerOwner(s: Stage, num: nat, key: VipKey)
    requires s.Valid() && s.Admissible()
    requires s.Pays(num, key)
    ensures 0 <= Owner(s.groups, key) < |s.nums|
    ensures s.written[Owner(s.groups, key)] ==> s.nums[Owner(s.groups, key)] == num
    ensures !s.written[Owner(s.groups, key)] ==> exists r :: 0 <= r < |s.refs| && s.PaysBy(num, key, r)
  {
    if w :| 0 <= w < |s.nums| && s.written[w] && s.nums[w] == num && 0 < |s.groups[w]| && s.groups[w][0] == key {
      OwnerIs(s.groups, key, w);
    }
  }

  lemma OneKeyPaysOneBlock(s: Stage, num: nat, other: nat, key: VipKey)
    requires s.Valid() && s.Admissible()
    requires s.Pays(num, key) && s.Pays(other, key)
    ensures num == other
  {
    PayerOwner(s, num, key);
    PayerOwner(s, other, key);
  }

  /** A key that refers to its own entry's block pays for nothing. */
  lemma OwnReferenceIsSpare(s: Stage, self: nat, num: nat)
    requires s.Valid() && s.Admissible()
    requires self < |s.refs| && !s.written[s.refs[self].entry] && s.refs[self].num == s.nums[s.refs[self].entry]
    ensures !s.Pays(num, s.owned[self].key)
  {
    if s.Pays(num, s.owned[self].key) {
      PayerOwner(s, num, s.owned[self].key);
    }
  }

  /** One key of a stuck state pays for nothing. */
  lemma SpareKey(s: Stage, e: nat) returns (spare: VipKey)
    requires s.Valid() && s.Stuck() && s.Admissible()
    requires e < |s.nums| && !s.written[e]
    ensures spare in AllKeys(s.groups)
    ensures forall num: nat :: !s.Pays(num, spare)
  {
    var self := SelfReference(s, e);
    spare := s.owned[self].key;
    assert spare in AllKeys(s.groups) by {
      var k :| 0 <= k < |s.groups[s.refs[self].entry]| && s.groups[s.refs[self].entry][k] == spare;
    }
    forall num: nat ensures !s.Pays(num, spare) {
      OwnReferenceIsSpare(s, self, num);
    }
  }

  ghost predicate Busy(s: Stage, num: nat)
    requires num < |s.used|
  {
    s.used[num] || !Ready(s.refs, num, UNSET)
  }

  /** Each of the first blocks is paid for by the key in its place. */
  ghost predicate PaidBy(s: Stage, payers: seq<VipKey>)
    requires s.Mirrors()
  {
    forall v: nat :: v < |payers| ==> s.Pays(v, payers[v]) && payers[v] in AllKeys(s.groups)
  }

  lemma NewPayer(s: Stage, payers: seq<VipKey>, key: VipKey, v: nat)
    requires s.Valid() && s.Admissible() && PaidBy(s, payers) && s.Pays(|payers|, key) && v < |payers|
    ensures payers[v] != key
  {
    assert s.Pays(v, payers[v]);
    if payers[v] == key {
      OneKeyPaysOneBlock(s, v, |payers|, key);
    }
  }

  lemma PayersExtend(s: Stage, front: seq<VipKey>, key: VipKey)
    requires s.Valid() && s.Admissible() && Distinct(front) && PaidBy(s, front)
    requires s.Pays(|front|, key) && key in AllKeys(s.groups)
    ensures Distinct(front + [key]) && PaidBy(s, front + [key])
  {
    forall v: nat | v < |front| ensures front[v] != key {
      NewPayer(s, front, key, v);
    }
  }

  /** If every block below `n` is busy, each is paid for by a key of its own. */
  lemma {:induction false} Payers(s: Stage, n: nat) returns (payers: seq<VipKey>)
    requires s.Valid() && s.Stuck() && s.Admissible() && n <= |s.used|
    requires forall num: nat :: num < n ==> Busy(s, num)
    ensures |payers| == n && Distinct(payers) && PaidBy(s, payers)
  {
    payers := [];
    if n > 0 {
      var front := Payers(s, n - 1);
      assert Busy(s, n - 1);
      var key := BusyBlockIsPaid(s, n - 1);
      PayersExtend(s, front, key);
      payers := front + [key];
    }
  }

  /** The capacity theorem. However full the table is, a state in which every unwritten
      entry is blocked still has a block that no entry holds and no live key refers to. */
  lemma StuckLeavesFreeBlock(s: Stage, e: nat)
    requires s.Valid() && s.Stuck() && s.Admissible()
    requires e < |s.nums| && !s.written[e]
    ensures exists num :: 0 <= num < |s.used| && !s.used[num] && Ready(s.refs, num, UNSET)
  {
    if forall num: nat :: num < |s.used| ==> Busy(s, num) {
      var spare := SpareKey(s, e);
      var payers := Payers(s, |s.used|);
      DistinctFits(payers, AllKeys(s.groups) - {spare});
      AllKeysFit(s.groups);
      assert false;
    }
  }

  // ---- the bound is needed ---------------------------------------------------------

  function NthKey(i: nat): VipKey { VipKey(AF_INET, [i, 0, 0, 0], 80, 6) }

  /** Two VIPs that exchange one address each, in a table of `n` blocks: both entries keep
      their block and each is blocked by the other. */
  ghost function Crossed(n: nat): Stage
    requires n >= 2
  {
    Stage([[NthKey(0), NthKey(1)], [NthKey(2), NthKey(3)]],
          [Baseline(NthKey(0), 0), Baseline(NthKey(3), 0), Baseline(NthKey(2), 1), Baseline(NthKey(1), 1)],
          [0, 1], {0, 1}, [0, 1], seq(n, v => v < 2),
          [Reference(0, 0), Reference(1, 0), Reference(1, 1), Reference(0, 1)], [false, false])
  }

  lemma CrossedOwners(n: nat, r: nat)
    requires n >= 2 && r < 4
    ensures Crossed(n).OwnerOf(r) == Crossed(n).refs[r].entry
  {
    var groups := Crossed(n).groups;
    assert groups[0][0] == NthKey(0) && groups[0][1] == NthKey(1) && groups[1][0] == NthKey(2) && groups[1][1] == NthKey(3);
    assert forall i: nat :: NthKey(i).addr[0] == i;
  }

  lemma CrossedClaimed(n: nat)
    requires n >= 2
    ensures Crossed(n).Claimed()
  {
    var s := Crossed(n);
    CrossedOwners(n, 0);
    CrossedOwners(n, 2);
    assert s.OwnerOf(0) == 0 && s.owned[0].num == s.claim[0] && s.HasReference(0, s.claim[0]);
    assert s.OwnerOf(2) == 1 && s.owned[2].num == s.claim[1] && s.HasReference(1, s.claim[1]);
    forall r | 0 <= r < |s.owned| ensures s.Accounted(r) {
      CrossedOwners(n, r);
    }
  }

  lemma CrossedStuck(n: nat)
    requires n >= 2
    ensures Crossed(n).Stuck()
  {
    var s := Crossed(n);
    assert s.refs[1] == Reference(1, 0) && s.refs[3] == Reference(0, 1);
  }

  lemma CrossedKeys(n: nat)
    requires n >= 2
    ensures DisjointGroups(Crossed(n).groups) && DistinctBaseline(Crossed(n).owned) && TotalKeys(Crossed(n).groups) == 4
  {
    assert forall i: nat :: NthKey(i).addr[0] == i;
    var groups := Crossed(n).groups;
    assert TotalKeys(groups[..1]) == TotalKeys(groups[..1][..0]) + 2;
    assert TotalKeys(groups) == TotalKeys(groups[..1]) + 2;
  }

  /** Stuck states exist, and with fewer blocks than keys there need be no free one: what the
      capacity theorem asks of the caller cannot be dropped. */
  lemma CapacityIsNeeded(n: nat)
    requires n >= 2
    ensures Crossed(n).Valid() && Crossed(n).Stuck() && !Crossed(n).written[0]
    ensures n >= 4 <==> Crossed(n).Admissible()
    ensures n == 2 ==> forall num :: 0 <= num < n ==> Crossed(n).used[num]
  {
    CrossedClaimed(n);
    CrossedStuck(n);
    CrossedKeys(n);
    var s := Crossed(n);
    forall v | 0 <= v < |s.used| ensures Held(s.nums, s.used, v) {
      assert s.nums[0] == 0 && s.nums[1] == 1;
    }
    forall r | 0 <= r < |s.refs| ensures s.refs[r].entry == s.OwnerOf(r) && s.refs[r].num == s.owned[r].num {
      CrossedOwners(n, r);
    }
  }
}
