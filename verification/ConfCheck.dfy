/** The configuration checks the rest relies on (conf_check.c): VIP keys that are few enough and
    pairwise distinct, and block rules that can never decide anything. */
module ConfCheck {
  import opened Types
  import opened Counting
  import opened BlockAccounting
  import opened Acl

  // ---- VIP keys -----------------------------------------------------------------------------

  ghost predicate Canonical(groups: seq<seq<VipKey>>) {
    forall i, k :: 0 <= i < |groups| && 0 <= k < |groups[i]| ==> CanonicalKey(groups[i][k])
  }

  /** No key from position `from` on equals `key`. */
  ghost predicate Absent(key: VipKey, keys: seq<VipKey>, from: nat) {
    forall k :: from <= k < |keys| ==> keys[k] != key
  }

  /** The key at `(i, k)` recurs neither later in its group nor in a later group. */
  ghost predicate Clear(groups: seq<seq<VipKey>>, i: nat, k: nat)
    requires i < |groups| && k < |groups[i]|
  {
    && Absent(groups[i][k], groups[i], k + 1)
    && forall j :: i < j < |groups| ==> Absent(groups[i][k], groups[j], 0)
  }

  ghost predicate GroupClear(groups: seq<seq<VipKey>>, i: nat)
    requires i < |groups|
  {
    forall k :: 0 <= k < |groups[i]| ==> Clear(groups, i, k)
  }

  ghost predicate AllClear(groups: seq<seq<VipKey>>) {
    forall i :: 0 <= i < |groups| ==> GroupClear(groups, i)
  }

  /** What a configuration promises the planner: no two configured keys are the same. */
  ghost predicate DistinctKeys(groups: seq<seq<VipKey>>) {
    DisjointGroups(groups) && forall i :: 0 <= i < |groups| ==> Distinct(groups[i])
  }

  /** Looking only forward from every key finds every duplicate. */
  lemma ClearIsDistinct(groups: seq<seq<VipKey>>)
    ensures AllClear(groups) <==> DistinctKeys(groups)
  {
    if AllClear(groups) {
      forall i, j, key | 0 <= i < |groups| && 0 <= j < |groups| && key in groups[i] && key in groups[j]
        ensures i == j
      {
        var lo, hi := if i < j then i else j, if i < j then j else i;
        var k :| 0 <= k < |groups[lo]| && groups[lo][k] == key;
        assert GroupClear(groups, lo) && Clear(groups, lo, k);
      }
      forall i | 0 <= i < |groups| ensures Distinct(groups[i]) {
        forall k1, k2 | 0 <= k1 < k2 < |groups[i]| ensures groups[i][k1] != groups[i][k2] {
          assert GroupClear(groups, i) && Clear(groups, i, k1);
        }
      }
    }
    if DistinctKeys(groups) {
      forall i, k | 0 <= i < |groups| && 0 <= k < |groups[i]| ensures Clear(groups, i, k) {
        assert groups[i][k] in groups[i];
        forall j | i < j < |groups| ensures Absent(groups[i][k], groups[j], 0) {
          assert groups[i][k] !in groups[j];
        }
      }
    }
  }

  /** How many keys from position `from` on equal `key`, by the loader's comparison. */
  method CountEqual(key: VipKey, keys: seq<VipKey>, from: nat) returns (n: nat)
    requires CanonicalKey(key) && forall k :: 0 <= k < |keys| ==> CanonicalKey(keys[k])
    requires from <= |keys|
    ensures n == 0 <==> Absent(key, keys, from)
  {
    n := 0;
    for k := from to |keys|
      invariant n == 0 <==> Absent(key, keys[..k], from)
    {
      KeyEqIsMapEquality(key, keys[k]);
      assert keys[..k + 1] == keys[..k] + [keys[k]];
      assert Absent(key, keys[..k + 1], from) <==> Absent(key, keys[..k], from) && keys[..k + 1][k] != key;
      if KeyEq(key, keys[k]) {
        n := n + 1;
      }
    }
    assert keys[..|keys|] == keys;
  }

  method CountClashes(groups: seq<seq<VipKey>>, i: nat, k: nat) returns (n: nat)
    requires Canonical(groups) && i < |groups| && k < |groups[i]|
    ensures n == 0 <==> Clear(groups, i, k)
  {
    var key := groups[i][k];
    n := CountEqual(key, groups[i], k + 1);
    for j := i + 1 to |groups|
      invariant n == 0 <==> Absent(key, groups[i], k + 1) && forall j' :: i < j' < j ==> Absent(key, groups[j'], 0)
    {
      var m := CountEqual(key, groups[j], 0);
      n := n + m;
    }
  }

  method TotalAddrs(groups: seq<seq<VipKey>>) returns (total: nat)
    ensures total == TotalKeys(groups)
  {
    total := 0;
    for i := 0 to |groups|
      invariant total == TotalKeys(groups[..i])
    {
      total := total + |groups[i]|;
      assert groups[..i + 1][..i] == groups[..i];
    }
    assert groups[..|groups|] == groups;
  }

  /** The key checks of `check_vips` report nothing exactly when the keys fit the map and no two
      are the same. */
  method CheckVipKeys(groups: seq<seq<VipKey>>, maxVips: nat) returns (findings: nat)
    requires Canonical(groups)
    ensures findings == 0 <==> TotalKeys(groups) <= maxVips && DistinctKeys(groups)
  {
    var total := TotalAddrs(groups);
    findings := if total > maxVips then 1 else 0;
    for i := 0 to |groups|
      invariant findings == 0 <==> total <= maxVips && forall i' :: 0 <= i' < i ==> GroupClear(groups, i')
    {
      var before := findings;
      for k := 0 to |groups[i]|
        invariant findings == 0 <==> before == 0 && forall k' :: 0 <= k' < k ==> Clear(groups, i, k')
      {
        var n := CountClashes(groups, i, k);
        findings := findings + n;
      }
      assert findings == 0 <==> before == 0 && GroupClear(groups, i);
    }
    ClearIsDistinct(groups);
  }

  // ---- dead block rules --------------------------------------------------------------------------

  ghost predicate Dead(allow: seq<Prefix>, rule: Prefix, width: nat)
    requires ValidPrefix(rule, width) && forall j :: 0 <= j < |allow| ==> ValidPrefix(allow[j], width)
  {
    exists j :: 0 <= j < |allow| && Covers(allow[j], rule, width)
  }

  ghost predicate ValidRules(rules: seq<Prefix>, width: nat) {
    forall j :: 0 <= j < |rules| ==> ValidPrefix(rules[j], width)
  }

  method IsDead(allow: seq<Prefix>, rule: Prefix, width: nat) returns (dead: bool)
    requires ValidPrefix(rule, width) && ValidRules(allow, width)
    ensures dead <==> Dead(allow, rule, width)
  {
    for j := 0 to |allow|
      invariant forall j' :: 0 <= j' < j ==> !Covers(allow[j'], rule, width)
    {
      var covers := PrefixCovers(allow[j], rule, width);
      if covers {
        return true;
      }
    }
    return false;
  }

  /** The indices of the block rules reported dead: exactly those an allow rule covers. */
  method CheckDeadRules(allow: seq<Prefix>, block: seq<Prefix>, width: nat) returns (dead: set<nat>)
    requires ValidRules(allow, width) && ValidRules(block, width)
    ensures dead == set i: nat | i < |block| && Dead(allow, block[i], width)
  {
    dead := {};
    for i := 0 to |block|
      invariant dead == set i': nat | i' < i && Dead(allow, block[i'], width)
    {
      var d := IsDead(allow, block[i], width);
      if d {
        dead := dead + {i};
      }
    }
  }

  /** All rules reported dead can be dropped together without changing any verdict. */
  lemma DeadRulesRemovable(a: AclState, fam: nat, width: nat, allow: seq<Prefix>, dead: set<Prefix>, family: nat, source: seq<bool>)
    requires WellFormed(a) && BitsCover(a) && fam < 2 && |source| == 8 * width && ValidRules(allow, width)
    requires forall j :: 0 <= j < |allow| ==> allow[j] in a.tries[ListsBit(LIST_ALLOW, fam)]
    requires forall p :: p in dead ==> ValidPrefix(p, width) && Dead(allow, p, width)
    requires (family == AF_INET && fam == FAMILY_V4) || (family == AF_INET6 && fam == FAMILY_V6)
    ensures var b := ListsBit(LIST_BLOCK, fam);
            AclCheck(a.(tries := a.tries[b := a.tries[b] - dead]), family, source) == AclCheck(a, family, source)
  {
    var b := ListsBit(LIST_BLOCK, fam);
    if Hit(a.tries[b], source) {
      var p :| p in a.tries[b] && Matches(p, source);
      if p in dead {
        var j :| 0 <= j < |allow| && Covers(allow[j], p, width);
        assert Hit(a.tries[ListsBit(LIST_ALLOW, fam)], source);
      } else {
        assert p in a.tries[b] - dead;
      }
    }
  }
}
