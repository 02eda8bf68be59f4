/** The maps the data plane reads, as one value, the single operations that change them, and
    what a packet may find in them while they are being rewritten. */
module LiveMaps {
  import opened Types
  import opened Counting
  import opened BlockAccounting
  import opened Acl

  /** A `backends` slot; the map holds the populated slots, keyed by id. */
  datatype Backend = Backend(id: nat, addr: seq<nat>, flags: nat, vni: nat, innerMac: seq<nat>)

  /** One observable state of all modelled maps. `fwd` is the flat forwarding table. */
  datatype Kernel = Kernel(vipMap: map<VipKey, VipMeta>, fwd: seq<nat>, backends: map<nat, Backend>, acl: AclState)

  /** A reconcile run: the state it started from, and for every configured entry its keys, the
      value its keys get, and its generated table; `order` is the planned write order. */
  datatype Run = Run(maxVips: nat, tableSize: nat, base: Kernel, groups: seq<seq<VipKey>>, metas: seq<VipMeta>,
                     tables: seq<seq<nat>>, order: seq<nat>, wanted: set<nat>, goal: AclState)

  // ---- the flat forwarding table ----------------------------------------------------------

  function Row(s: Kernel, tableSize: nat, num: nat, row: nat): nat {
    if num * tableSize + row < |s.fwd| then s.fwd[num * tableSize + row] else 0
  }

  lemma CellInRange(num: nat, row: nat, maxVips: nat, tableSize: nat)
    requires num < maxVips && row < tableSize
    ensures num * tableSize + row < maxVips * tableSize
  {
    assert (num + 1) * tableSize <= maxVips * tableSize;
  }

  lemma BlocksApart(num: nat, num': nat, tableSize: nat)
    requires num < num'
    ensures num * tableSize + tableSize <= num' * tableSize
  {
    assert (num + 1) * tableSize <= num' * tableSize;
  }

  lemma CellInjective(num: nat, row: nat, num': nat, row': nat, tableSize: nat)
    requires row < tableSize && row' < tableSize
    requires num * tableSize + row == num' * tableSize + row'
    ensures num == num' && row == row'
  {
    if num < num' {
      BlocksApart(num, num', tableSize);
    } else if num' < num {
      BlocksApart(num', num, tableSize);
    }
  }

  // ---- single map operations --------------------------------------------------------------------

  datatype Op =
    | DeleteKey(key: VipKey)
    | PutKey(key: VipKey, meta: VipMeta)
    | PutRow(num: nat, row: nat, id: nat)
    | PutBackend(backend: Backend)
    | ClearBackend(id: nat)
    | PutConfig(enabled: bool, lists: seq<bool>)
    | InsertRule(trie: nat, rule: Prefix)
    | DeleteRule(trie: nat, rule: Prefix)

  /** The operation addresses an element that exists. */
  predicate Fits(s: Kernel, tableSize: nat, op: Op) {
    match op
    case PutRow(num, row, _) => row < tableSize && num * tableSize + row < |s.fwd|
    case InsertRule(t, _) => t < |s.acl.tries|
    case DeleteRule(t, _) => t < |s.acl.tries|
    case _ => true
  }

  function Done(s: Kernel, tableSize: nat, op: Op): Kernel
    requires Fits(s, tableSize, op)
  {
    match op
    case DeleteKey(key) => s.(vipMap := s.vipMap - {key})
    case PutKey(key, meta) => s.(vipMap := s.vipMap[key := meta])
    case PutRow(num, row, id) => s.(fwd := s.fwd[num * tableSize + row := id])
    case PutBackend(b) => s.(backends := s.backends[b.id := b])
    case ClearBackend(id) => s.(backends := s.backends - {id})
    case PutConfig(enabled, lists) => s.(acl := AclState(enabled, lists, s.acl.tries))
    case InsertRule(t, p) => s.(acl := s.acl.(tries := s.acl.tries[t := s.acl.tries[t] + {p}]))
    case DeleteRule(t, p) => s.(acl := s.acl.(tries := s.acl.tries[t := s.acl.tries[t] - {p}]))
  }

  /** `s` is `s0` with some rows of one block already replaced. */
  ghost predicate PartialBlock(tableSize: nat, s0: Kernel, num: nat, values: seq<nat>, s: Kernel) {
    && |values| == tableSize
    && s == s0.(fwd := s.fwd) && |s.fwd| == |s0.fwd|
    && forall v: nat, r: nat :: r < tableSize ==>
         Row(s, tableSize, v, r) == Row(s0, tableSize, v, r) || (v == num && Row(s, tableSize, v, r) == values[r])
  }

  /** Writing one cell of the block keeps every other row, and every row of other blocks. */
  lemma CellWrite(tableSize: nat, s0: Kernel, num: nat, values: seq<nat>, s: Kernel, row: nat)
    requires PartialBlock(tableSize, s0, num, values, s)
    requires row < tableSize && num * tableSize + row < |s.fwd|
    ensures var s' := Done(s, tableSize, PutRow(num, row, values[row]));
            && PartialBlock(tableSize, s0, num, values, s')
            && (forall r: nat :: r < tableSize ==>
                  Row(s', tableSize, num, r) == if r == row then values[row] else Row(s, tableSize, num, r))
  {
    var s' := Done(s, tableSize, PutRow(num, row, values[row]));
    forall v: nat, r: nat | r < tableSize
      ensures Row(s', tableSize, v, r) == if v == num && r == row then values[row] else Row(s, tableSize, v, r)
    {
      RowWritten(s, tableSize, num, row, values[row], v, r);
    }
  }

  /** A row write changes that row and no other. */
  lemma RowWritten(s: Kernel, tableSize: nat, num: nat, row: nat, id: nat, v: nat, r: nat)
    requires row < tableSize && num * tableSize + row < |s.fwd| && r < tableSize
    ensures Row(Done(s, tableSize, PutRow(num, row, id)), tableSize, v, r) ==
            if v == num && r == row then id else Row(s, tableSize, v, r)
  {
    if v * tableSize + r == num * tableSize + row {
      CellInjective(v, r, num, row, tableSize);
    }
  }

  // ---- what must hold of every state a packet can see ------------------------------------------

  ghost predicate ValidRun(c: Run) {
    && |c.metas| == |c.groups| == |c.tables|
    && (forall j :: 0 <= j < |c.tables| ==> |c.tables[j]| == c.tableSize)
    && (forall j :: 0 <= j < |c.metas| ==> c.metas[j].vipNum < c.maxVips)
    && (forall i, j :: 0 <= i < j < |c.metas| ==> c.metas[i].vipNum != c.metas[j].vipNum)
    && |c.base.fwd| == c.maxVips * c.tableSize
    && (forall key :: key in c.base.vipMap ==> c.base.vipMap[key].vipNum < c.maxVips)
    && DisjointGroups(c.groups) && TotalKeys(c.groups) <= c.maxVips
    && |c.order| == |c.groups| && Distinct(c.order)
    && (forall t :: 0 <= t < |c.order| ==> c.order[t] < |c.groups|)
    && (forall t, key :: 0 <= t < |c.order| && key in c.base.vipMap && Later(c, key, t) ==>
          c.base.vipMap[key].vipNum != c.metas[c.order[t]].vipNum)
    && WellFormed(c.base.acl) && WellFormed(c.goal)
  }

  /** The key belongs to an entry that is written after position `t`. */
  ghost predicate Later(c: Run, key: VipKey, t: nat)
    requires t < |c.order|
  {
    Owner(c.groups, key) != UNSET && Owner(c.groups, key) !in c.order[..t + 1]
  }

  /** The row is what the key's own VIP had there before the run. */
  ghost predicate RowIsOld(c: Run, s: Kernel, key: VipKey, row: nat)
    requires key in s.vipMap
  {
    key in c.base.vipMap && Row(s, c.tableSize, s.vipMap[key].vipNum, row) == Row(c.base, c.tableSize, c.base.vipMap[key].vipNum, row)
  }

  /** The row is what the key's own VIP will have there after the run. */
  ghost predicate RowIsNew(c: Run, s: Kernel, key: VipKey, row: nat)
    requires key in s.vipMap && |c.tables| == |c.groups|
  {
    var j := Owner(c.groups, key);
    j != UNSET && row < |c.tables[j]| && Row(s, c.tableSize, s.vipMap[key].vipNum, row) == c.tables[j][row]
  }

  /** Every row of the entry's new block is its generated one. */
  ghost predicate BlockDone(c: Run, s: Kernel, j: nat)
    requires j < |c.tables| == |c.metas|
  {
    forall r: nat :: r < c.tableSize && r < |c.tables[j]| ==> Row(s, c.tableSize, c.metas[j].vipNum, r) == c.tables[j][r]
  }

  /** The key still has its old value, and each row it leads to is its VIP's own, old or new. */
  ghost predicate HasOld(c: Run, s: Kernel, key: VipKey)
    requires key in s.vipMap && |c.tables| == |c.groups|
  {
    && key in c.base.vipMap && s.vipMap[key] == c.base.vipMap[key]
    && forall row: nat :: row < c.tableSize ==> RowIsOld(c, s, key, row) || RowIsNew(c, s, key, row)
  }

  /** The key has its new value, and the block it leads to is complete. */
  ghost predicate HasNew(c: Run, s: Kernel, key: VipKey)
    requires key in s.vipMap && |c.tables| == |c.groups| == |c.metas|
  {
    var j := Owner(c.groups, key);
    j != UNSET && s.vipMap[key] == c.metas[j] && BlockDone(c, s, j)
  }

  /** Routing safety: a live key leads to rows of its own VIP only, old or new, never to
      another VIP's and never to a block that was released. Its value is its own too. */
  ghost predicate Routed(c: Run, s: Kernel)
    requires |c.tables| == |c.groups| == |c.metas|
  {
    forall key :: key in s.vipMap ==> KeyRouted(c, s, key)
  }

  ghost predicate KeyRouted(c: Run, s: Kernel, key: VipKey)
    requires key in s.vipMap && |c.tables| == |c.groups| == |c.metas|
  {
    s.vipMap[key].vipNum < c.maxVips && (HasOld(c, s, key) || HasNew(c, s, key))
  }

  /** Availability: a key that was live and is still configured stays live. */
  ghost predicate KeptLive(c: Run, s: Kernel) {
    forall key :: key in c.base.vipMap && Owner(c.groups, key) != UNSET ==> key in s.vipMap
  }

  /** The block an entry ends up with holds only what it held before the run, or the entry's
      own rows; its release or reuse is never seen under this number. */
  ghost predicate OwnBlocks(c: Run, s: Kernel)
    requires |c.tables| == |c.metas|
  {
    forall j, r: nat :: 0 <= j < |c.metas| && r < c.tableSize ==> OwnRow(c, s, j, r)
  }

  ghost predicate OwnRow(c: Run, s: Kernel, j: nat, r: nat)
    requires j < |c.tables| == |c.metas|
  {
    var num := c.metas[j].vipNum;
    || Row(s, c.tableSize, num, r) == Row(c.base, c.tableSize, num, r)
    || (r < |c.tables[j]| && Row(s, c.tableSize, num, r) == c.tables[j][r])
  }

  /** Referential integrity: every non-zero row a live key leads to names a populated backend. */
  ghost predicate RowsPopulated(c: Run, s: Kernel) {
    forall key, row: nat :: key in s.vipMap && row < c.tableSize ==>
      var id := Row(s, c.tableSize, s.vipMap[key].vipNum, row); id == 0 || id in s.backends
  }

  /** Verdict safety, for runs between two enabled configurations. */
  ghost predicate AclSteady(c: Run, s: Kernel) {
    && WellFormed(s.acl) && WellFormed(c.base.acl) && WellFormed(c.goal)
    && (c.base.acl.enabled && c.goal.enabled && BitsCover(c.base.acl) ==> ServesBoth(s.acl, c.base.acl, c.goal))
  }

  /** Everything above, and that the state is one a later run can start from. */
  ghost predicate Sound(c: Run, s: Kernel)
    requires |c.tables| == |c.groups| == |c.metas|
  {
    && |s.fwd| == |c.base.fwd| && |s.vipMap| <= c.maxVips
    && Routed(c, s) && KeptLive(c, s) && OwnBlocks(c, s)
    && (RowsPopulated(c, c.base) ==> RowsPopulated(c, s))
    && AclSteady(c, s)
  }

  /** Integrity follows from routing once every old and every new backend is populated. */
  lemma RoutedPopulated(c: Run, s: Kernel)
    requires ValidRun(c) && Routed(c, s) && RowsPopulated(c, c.base)
    requires TablesWanted(c)
    requires c.base.backends.Keys <= s.backends.Keys && c.wanted <= s.backends.Keys
    ensures RowsPopulated(c, s)
  {
    forall key, row: nat | key in s.vipMap && row < c.tableSize
      ensures var id := Row(s, c.tableSize, s.vipMap[key].vipNum, row); id == 0 || id in s.backends
    {
      OwnRowOnly(c, s, key, row);
      if RowIsOld(c, s, key, row) {
        var id := Row(c.base, c.tableSize, c.base.vipMap[key].vipNum, row);
        assert id == 0 || id in c.base.backends.Keys;
      } else {
        assert RowIsNew(c, s, key, row);
      }
    }
  }

  lemma OwnRowOnly(c: Run, s: Kernel, key: VipKey, row: nat)
    requires ValidRun(c) && Routed(c, s) && key in s.vipMap && row < c.tableSize
    ensures RowIsOld(c, s, key, row) || RowIsNew(c, s, key, row)
  {
    assert KeyRouted(c, s, key);
  }

  /** Generated tables name configured backends only. */
  ghost predicate TablesWanted(c: Run) {
    forall j, row :: 0 <= j < |c.tables| && 0 <= row < |c.tables[j]| ==> c.tables[j][row] == 0 || c.tables[j][row] in c.wanted
  }

  // ---- the phases of the run ------------------------------------------------------------------

  /** Before any table is written: some unwanted keys are gone, nothing else has moved. */
  ghost predicate Pruning(c: Run, s: Kernel) {
    && s.fwd == c.base.fwd && KeptLive(c, s)
    && s.vipMap.Keys <= c.base.vipMap.Keys
    && forall key :: key in s.vipMap ==> s.vipMap[key] == c.base.vipMap[key]
  }

  lemma PruningRouted(c: Run, s: Kernel)
    requires ValidRun(c) && Pruning(c, s)
    ensures Routed(c, s) && OwnBlocks(c, s)
    ensures RowsPopulated(c, c.base) && c.base.backends.Keys <= s.backends.Keys ==> RowsPopulated(c, s)
    ensures |s.vipMap| <= |c.base.vipMap|
  {
    assert forall v: nat, r: nat :: Row(s, c.tableSize, v, r) == Row(c.base, c.tableSize, v, r);
    forall key | key in s.vipMap ensures KeyRouted(c, s, key) {
      assert forall row: nat :: RowIsOld(c, s, key, row);
      assert HasOld(c, s, key);
    }
    SubsetCount(s.vipMap.Keys, c.base.vipMap.Keys);
    assert |s.vipMap| == |s.vipMap.Keys| && |c.base.vipMap| == |c.base.vipMap.Keys|;
  }

  function Num(c: Run, t: nat): nat
    requires t < |c.order| && c.order[t] < |c.metas|
  {
    c.metas[c.order[t]].vipNum
  }

  ghost predicate Untouched(c: Run, n: nat, num: nat)
    requires ValidRun(c) && n <= |c.order|
  {
    forall t :: 0 <= t < n ==> Num(c, t) != num
  }

  /** The blocks of the first `n` entries of the order are complete, the next one is being
      written if `busy`, and the keys in `pub` have been pointed at their new blocks. */
  ghost predicate Moving(c: Run, s: Kernel, n: nat, busy: bool, pub: set<VipKey>)
    requires ValidRun(c)
  {
    var touched := if busy then n + 1 else n;
    && touched <= |c.order| && |s.fwd| == |c.base.fwd| && KeptLive(c, s)
    && KeysPlaced(c, s, n, touched, pub) && BlocksPlaced(c, s, n, busy)
  }

  ghost predicate KeysPlaced(c: Run, s: Kernel, n: nat, touched: nat, pub: set<VipKey>)
    requires ValidRun(c) && n <= |c.order| && touched <= |c.order|
  {
    && (forall key :: key in s.vipMap ==> Owner(c.groups, key) != UNSET)
    && (forall key :: key in pub ==> Published(c, s, n, key))
    && (forall key :: key in s.vipMap && key !in pub ==> Waiting(c, s, touched, key))
  }

  ghost predicate BlocksPlaced(c: Run, s: Kernel, n: nat, busy: bool)
    requires ValidRun(c) && (if busy then n + 1 else n) <= |c.order|
  {
    var touched := if busy then n + 1 else n;
    && (forall t, r: nat :: 0 <= t < n && r < c.tableSize ==> Row(s, c.tableSize, Num(c, t), r) == c.tables[c.order[t]][r])
    && (forall v: nat, r: nat :: r < c.tableSize && Untouched(c, touched, v) ==> Row(s, c.tableSize, v, r) == Row(c.base, c.tableSize, v, r))
    && (busy ==> forall r: nat :: r < c.tableSize ==>
          Row(s, c.tableSize, Num(c, n), r) == c.tables[c.order[n]][r] || Row(s, c.tableSize, Num(c, n), r) == Row(c.base, c.tableSize, Num(c, n), r))
  }

  lemma SameFwd(c: Run, s: Kernel, t: Kernel, n: nat, busy: bool)
    requires ValidRun(c) && (if busy then n + 1 else n) <= |c.order| && t.fwd == s.fwd && BlocksPlaced(c, s, n, busy)
    ensures BlocksPlaced(c, t, n, busy)
  {
    assert forall v: nat, r: nat :: Row(t, c.tableSize, v, r) == Row(s, c.tableSize, v, r);
  }

  ghost predicate Published(c: Run, s: Kernel, n: nat, key: VipKey)
    requires ValidRun(c) && n <= |c.order|
  {
    var j := Owner(c.groups, key);
    key in s.vipMap && j != UNSET && j in c.order[..n] && s.vipMap[key] == c.metas[j]
  }

  /** An unpublished key still has its old value, and no block touched so far is its block
      unless it is its own entry's. */
  ghost predicate Waiting(c: Run, s: Kernel, touched: nat, key: VipKey)
    requires ValidRun(c) && touched <= |c.order| && key in s.vipMap
  {
    && key in c.base.vipMap && s.vipMap[key] == c.base.vipMap[key]
    && forall t :: 0 <= t < touched && Num(c, t) == c.base.vipMap[key].vipNum ==> c.order[t] == Owner(c.groups, key)
  }

  lemma MovingRouted(c: Run, s: Kernel, n: nat, busy: bool, pub: set<VipKey>)
    requires ValidRun(c) && Moving(c, s, n, busy, pub)
    ensures Routed(c, s)
  {
    forall key | key in s.vipMap ensures KeyRouted(c, s, key) {
      MovingKeyRouted(c, s, n, busy, pub, key);
    }
  }

  lemma PublishedRouted(c: Run, s: Kernel, n: nat, busy: bool, pub: set<VipKey>, key: VipKey)
    requires ValidRun(c) && Moving(c, s, n, busy, pub) && key in pub
    ensures KeyRouted(c, s, key)
  {
    assert Published(c, s, n, key);
    var t :| 0 <= t < n && c.order[..n][t] == Owner(c.groups, key);
    assert Num(c, t) == s.vipMap[key].vipNum;
    assert HasNew(c, s, key);
  }

  lemma WaitingRow(c: Run, s: Kernel, n: nat, busy: bool, pub: set<VipKey>, key: VipKey, row: nat)
    requires ValidRun(c) && Moving(c, s, n, busy, pub) && key in s.vipMap && key !in pub && row < c.tableSize
    ensures RowIsOld(c, s, key, row) || RowIsNew(c, s, key, row)
  {
    var touched := if busy then n + 1 else n;
    assert Waiting(c, s, touched, key);
    var v := s.vipMap[key].vipNum;
    if !Untouched(c, touched, v) {
      var t :| 0 <= t < touched && Num(c, t) == v;
      assert c.order[t] == Owner(c.groups, key);
      TouchedRow(c, s, n, busy, pub, t, row);
    }
  }

  /** A block that is complete or being written holds its entry's rows, or what it held before. */
  lemma TouchedRow(c: Run, s: Kernel, n: nat, busy: bool, pub: set<VipKey>, t: nat, r: nat)
    requires ValidRun(c) && Moving(c, s, n, busy, pub) && t < (if busy then n + 1 else n) && r < c.tableSize
    ensures || Row(s, c.tableSize, Num(c, t), r) == c.tables[c.order[t]][r]
            || Row(s, c.tableSize, Num(c, t), r) == Row(c.base, c.tableSize, Num(c, t), r)
  {
  }

  lemma MovingKeyRouted(c: Run, s: Kernel, n: nat, busy: bool, pub: set<VipKey>, key: VipKey)
    requires ValidRun(c) && Moving(c, s, n, busy, pub) && key in s.vipMap
    ensures KeyRouted(c, s, key)
  {
    if key in pub {
      PublishedRouted(c, s, n, busy, pub, key);
    } else {
      assert Waiting(c, s, if busy then n + 1 else n, key);
      forall row: nat | row < c.tableSize ensures RowIsOld(c, s, key, row) || RowIsNew(c, s, key, row) {
        WaitingRow(c, s, n, busy, pub, key, row);
      }
      assert HasOld(c, s, key);
    }
  }

  lemma MovingSafe(c: Run, s: Kernel, n: nat, busy: bool, pub: set<VipKey>)
    requires ValidRun(c) && Moving(c, s, n, busy, pub)
    ensures |s.fwd| == |c.base.fwd| && |s.vipMap| <= c.maxVips && Routed(c, s) && KeptLive(c, s) && OwnBlocks(c, s)
  {
    MovingRouted(c, s, n, busy, pub);
    MovingOwnBlocks(c, s, n, busy, pub);
    OwnedKeysFit(c, s.vipMap.Keys);
    assert |s.vipMap| == |s.vipMap.Keys|;
  }

  lemma MovingOwnBlocks(c: Run, s: Kernel, n: nat, busy: bool, pub: set<VipKey>)
    requires ValidRun(c) && Moving(c, s, n, busy, pub)
    ensures OwnBlocks(c, s)
  {
    var touched := if busy then n + 1 else n;
    forall j, r: nat | 0 <= j < |c.metas| && r < c.tableSize ensures OwnRow(c, s, j, r) {
      OrderComplete(c, j);
      var t :| 0 <= t < |c.order| && c.order[t] == j;
      if t >= touched {
        OtherBlocks(c, t);
        assert Untouched(c, touched, c.metas[j].vipNum);
      } else {
        TouchedRow(c, s, n, busy, pub, t, r);
      }
    }
  }

  /** Entries have blocks of their own. */
  lemma OtherBlocks(c: Run, t: nat)
    requires ValidRun(c) && t < |c.order|
    ensures forall u :: 0 <= u < |c.order| && u != t ==> Num(c, u) != Num(c, t)
  {
    forall u | 0 <= u < |c.order| && u != t ensures Num(c, u) != Num(c, t) {
      assert c.order[u] != c.order[t];
    }
  }

  /** The planned order keeps foreign keys off the next block. */
  lemma NextBlockFree(c: Run, s: Kernel, n: nat, key: VipKey)
    requires ValidRun(c) && n < |c.order| && key in s.vipMap
    requires Waiting(c, s, n, key) && Owner(c.groups, key) != UNSET && Owner(c.groups, key) !in c.order[..n]
    ensures Waiting(c, s, n + 1, key)
  {
    if Num(c, n) == c.base.vipMap[key].vipNum {
      assert !Later(c, key, n);
      assert c.order[..n + 1] == c.order[..n] + [c.order[n]];
    }
  }

  lemma StartBlock(c: Run, s: Kernel, n: nat, pub: set<VipKey>)
    requires ValidRun(c) && Moving(c, s, n, false, pub) && n < |c.order|
    requires forall key :: key in s.vipMap && Owner(c.groups, key) in c.order[..n] ==> key in pub
    ensures Moving(c, s, n, true, pub)
  {
    forall key | key in s.vipMap && key !in pub ensures Waiting(c, s, n + 1, key) {
      NextBlockFree(c, s, n, key);
    }
    forall v: nat | Untouched(c, n + 1, v) ensures Untouched(c, n, v) {
    }
    forall t | 0 <= t < n ensures Num(c, t) != Num(c, n) {
      assert c.order[t] != c.order[n];
    }
    assert Untouched(c, n, Num(c, n));
  }

  /** Any partial write of the next block keeps the invariant; a complete one finishes it. */
  lemma WriteBlockPhase(c: Run, s0: Kernel, s: Kernel, n: nat, pub: set<VipKey>)
    requires ValidRun(c) && n < |c.order| && Moving(c, s0, n, true, pub)
    requires PartialBlock(c.tableSize, s0, Num(c, n), c.tables[c.order[n]], s)
    ensures Moving(c, s, n, true, pub)
    ensures (forall r: nat :: r < c.tableSize ==> Row(s, c.tableSize, Num(c, n), r) == c.tables[c.order[n]][r]) ==>
              Moving(c, s, n + 1, false, pub)
  {
    KeysStay(c, s0, s, n, pub);
    BlocksAdvance(c, s0, s, n);
  }

  lemma KeysStay(c: Run, s0: Kernel, s: Kernel, n: nat, pub: set<VipKey>)
    requires ValidRun(c) && n < |c.order| && s.vipMap == s0.vipMap && KeysPlaced(c, s0, n, n + 1, pub)
    ensures KeysPlaced(c, s, n, n + 1, pub) && KeysPlaced(c, s, n + 1, n + 1, pub)
  {
    forall key | key in pub ensures Published(c, s, n, key) && Published(c, s, n + 1, key) {
      assert Published(c, s0, n, key);
      assert c.order[..n + 1] == c.order[..n] + [c.order[n]];
    }
    forall key | key in s.vipMap && key !in pub ensures Waiting(c, s, n + 1, key) {
      assert Waiting(c, s0, n + 1, key);
    }
  }

  lemma BlocksAdvance(c: Run, s0: Kernel, s: Kernel, n: nat)
    requires ValidRun(c) && n < |c.order| && BlocksPlaced(c, s0, n, true)
    requires PartialBlock(c.tableSize, s0, Num(c, n), c.tables[c.order[n]], s)
    ensures BlocksPlaced(c, s, n, true)
    ensures (forall r: nat :: r < c.tableSize ==> Row(s, c.tableSize, Num(c, n), r) == c.tables[c.order[n]][r]) ==>
              BlocksPlaced(c, s, n + 1, false)
  {
    OtherBlocks(c, n);
    forall v: nat, r: nat | r < c.tableSize && Untouched(c, n + 1, v) ensures Row(s, c.tableSize, v, r) == Row(c.base, c.tableSize, v, r) {
      assert v != Num(c, n);
    }
  }

  /** Pointing a key of a finished entry at its new block keeps the invariant. */
  lemma PublishPhase(c: Run, s: Kernel, n: nat, pub: set<VipKey>, key: VipKey)
    requires ValidRun(c) && Moving(c, s, n, false, pub)
    requires Owner(c.groups, key) != UNSET && Owner(c.groups, key) in c.order[..n]
    ensures Moving(c, s.(vipMap := s.vipMap[key := c.metas[Owner(c.groups, key)]]), n, false, pub + {key})
  {
    var s' := s.(vipMap := s.vipMap[key := c.metas[Owner(c.groups, key)]]);
    SameFwd(c, s, s', n, false);
    assert s.vipMap.Keys <= s'.vipMap.Keys;
    KeyMoves(c, s, s', n, pub, key);
  }

  lemma KeyMoves(c: Run, s: Kernel, t: Kernel, n: nat, pub: set<VipKey>, key: VipKey)
    requires ValidRun(c) && n <= |c.order| && KeysPlaced(c, s, n, n, pub)
    requires Owner(c.groups, key) != UNSET && Owner(c.groups, key) in c.order[..n]
    requires t.vipMap == s.vipMap[key := c.metas[Owner(c.groups, key)]]
    ensures KeysPlaced(c, t, n, n, pub + {key})
  {
    forall k | k in pub + {key} ensures Published(c, t, n, k) {
      assert k != key ==> Published(c, s, n, k);
    }
    forall k | k in t.vipMap && k !in pub + {key} ensures Waiting(c, t, n, k) {
      assert Waiting(c, s, n, k);
    }
  }

  lemma OwnedKeysFit(c: Run, keys: set<VipKey>)
    requires ValidRun(c)
    requires forall key :: key in keys ==> Owner(c.groups, key) != UNSET
    ensures |keys| <= c.maxVips
  {
    forall key | key in keys ensures key in AllKeys(c.groups) {
      var j := Owner(c.groups, key);
      var k :| 0 <= k < |c.groups[j]| && c.groups[j][k] == key;
    }
    SubsetCount(keys, AllKeys(c.groups));
    AllKeysFit(c.groups);
  }

  /** After the last entry: the map is the configuration, and every block it uses is complete. */
  ghost predicate Arrived(c: Run, s: Kernel)
    requires ValidRun(c)
  {
    && |s.fwd| == |c.base.fwd|
    && (forall key :: key in s.vipMap <==> Owner(c.groups, key) != UNSET)
    && (forall key :: key in s.vipMap ==> s.vipMap[key] == c.metas[Owner(c.groups, key)])
    && (forall j, r: nat :: 0 <= j < |c.groups| && r < c.tableSize ==> Row(s, c.tableSize, c.metas[j].vipNum, r) == c.tables[j][r])
  }

  lemma MovingArrives(c: Run, s: Kernel, pub: set<VipKey>)
    requires ValidRun(c) && Moving(c, s, |c.order|, false, pub)
    requires forall key :: Owner(c.groups, key) != UNSET ==> key in pub
    ensures Arrived(c, s)
  {
    forall key | Owner(c.groups, key) != UNSET ensures key in s.vipMap && s.vipMap[key] == c.metas[Owner(c.groups, key)] {
      assert Published(c, s, |c.order|, key);
    }
    forall j, r: nat | 0 <= j < |c.groups| && r < c.tableSize ensures Row(s, c.tableSize, c.metas[j].vipNum, r) == c.tables[j][r] {
      OrderComplete(c, j);
      var t :| 0 <= t < |c.order| && c.order[t] == j;
      assert Num(c, t) == c.metas[j].vipNum;
    }
  }

  lemma OrderComplete(c: Run, j: nat)
    requires ValidRun(c) && j < |c.groups|
    ensures j in c.order
  {
    if j !in c.order {
      DistinctBelow(c.order + [j], |c.groups|);
    }
  }

  lemma ArrivedRouted(c: Run, s: Kernel)
    requires ValidRun(c) && Arrived(c, s)
    ensures Routed(c, s) && OwnBlocks(c, s) && |s.vipMap| <= c.maxVips
    ensures TablesWanted(c) && c.wanted <= s.backends.Keys ==> RowsPopulated(c, s)
  {
    OwnedKeysFit(c, s.vipMap.Keys);
    forall key | key in s.vipMap ensures KeyRouted(c, s, key) {
      assert HasNew(c, s, key);
    }
    forall j, r: nat | 0 <= j < |c.metas| && r < c.tableSize ensures OwnRow(c, s, j, r) {
      assert Row(s, c.tableSize, c.metas[j].vipNum, r) == c.tables[j][r];
    }
    assert |s.vipMap| == |s.vipMap.Keys|;
    if TablesWanted(c) && c.wanted <= s.backends.Keys {
      ArrivedPopulated(c, s);
    }
  }

  lemma ArrivedPopulated(c: Run, s: Kernel)
    requires ValidRun(c) && Arrived(c, s) && TablesWanted(c) && c.wanted <= s.backends.Keys
    ensures RowsPopulated(c, s)
  {
    forall key, row: nat | key in s.vipMap && row < c.tableSize
      ensures var id := Row(s, c.tableSize, s.vipMap[key].vipNum, row); id == 0 || id in s.backends
    {
      var j := Owner(c.groups, key);
      assert Row(s, c.tableSize, c.metas[j].vipNum, row) == c.tables[j][row];
    }
  }

  /** Rewriting a block that no entry owns does not disturb the outcome. */
  lemma ReleasePhase(c: Run, s0: Kernel, s: Kernel, num: nat, values: seq<nat>)
    requires ValidRun(c) && Arrived(c, s0)
    requires PartialBlock(c.tableSize, s0, num, values, s)
    requires forall j :: 0 <= j < |c.metas| ==> c.metas[j].vipNum != num
    ensures Arrived(c, s)
  {
  }

  // ---- the run as a sequence of operations -----------------------------------------------------------

  /** What a run may do in one operation: delete keys nobody configures, give a configured key
      its new value, write an entry's own row into its own block and zeroes into blocks nobody
      owns, clear backends nobody wants, insert wanted rules and delete unwanted ones. */
  ghost predicate Allowed(c: Run, op: Op)
    requires ValidRun(c)
  {
    match op
    case DeleteKey(key) => Owner(c.groups, key) == UNSET
    case PutKey(key, meta) => Owner(c.groups, key) != UNSET && meta == c.metas[Owner(c.groups, key)]
    case PutRow(num, row, id) =>
      row < c.tableSize && if InUse(c, num) then id == c.tables[OwnerOfBlock(c, num)][row] else id == NO_BACKEND
    case PutBackend(b) => b.id in c.wanted
    case ClearBackend(id) => id !in c.wanted
    case PutConfig(enabled, lists) => enabled == c.goal.enabled && |lists| == TRIES
    case InsertRule(t, p) => t < TRIES && p in c.goal.tries[t]
    case DeleteRule(t, p) => t < TRIES && p !in c.goal.tries[t]
  }

  ghost predicate InUse(c: Run, num: nat) {
    exists j :: 0 <= j < |c.metas| && c.metas[j].vipNum == num
  }

  ghost function OwnerOfBlock(c: Run, num: nat): (j: nat)
    requires InUse(c, num)
    ensures j < |c.metas| && c.metas[j].vipNum == num
  {
    var j :| 0 <= j < |c.metas| && c.metas[j].vipNum == num;
    j
  }

  ghost predicate StepBy(c: Run, s: Kernel, op: Op, t: Kernel)
    requires ValidRun(c)
  {
    Fits(s, c.tableSize, op) && Allowed(c, op) && t == Done(s, c.tableSize, op)
  }

  ghost predicate Step(c: Run, s: Kernel, t: Kernel)
    requires ValidRun(c)
  {
    exists op :: StepBy(c, s, op, t)
  }

  /** Consecutive states differ by one allowed operation. */
  ghost predicate Stepwise(c: Run, history: seq<Kernel>)
    requires ValidRun(c)
  {
    forall i :: 0 <= i < |history| - 1 ==> StepAt(c, history, i)
  }

  ghost predicate StepAt(c: Run, history: seq<Kernel>, i: nat)
    requires ValidRun(c) && i + 1 < |history|
  {
    Step(c, history[i], history[i + 1])
  }

  lemma StepwiseExtends(c: Run, history: seq<Kernel>, s: Kernel, op: Op, t: Kernel)
    requires ValidRun(c) && history != [] && history[|history| - 1] == s && Stepwise(c, history) && StepBy(c, s, op, t)
    ensures Stepwise(c, history + [t])
  {
    forall i | 0 <= i < |history| ensures StepAt(c, history + [t], i) {
      assert i + 1 < |history| ==> StepAt(c, history, i);
    }
  }

  /** A complete block stays complete. */
  lemma StepKeepsDone(c: Run, s: Kernel, op: Op, t: Kernel, j: nat)
    requires ValidRun(c) && StepBy(c, s, op, t) && j < |c.metas| && BlockDone(c, s, j)
    ensures BlockDone(c, t, j)
  {
    forall r: nat | r < c.tableSize && r < |c.tables[j]| ensures Row(t, c.tableSize, c.metas[j].vipNum, r) == c.tables[j][r] {
      if op.PutRow? {
        RowWritten(s, c.tableSize, op.num, op.row, op.id, c.metas[j].vipNum, r);
        assert op.num == c.metas[j].vipNum ==> InUse(c, op.num) && OwnerOfBlock(c, op.num) == j;
      }
    }
  }

  lemma {:induction false} DoneStays(c: Run, history: seq<Kernel>, i: nat, k: nat, j: nat)
    requires ValidRun(c) && Stepwise(c, history) && i <= k < |history| && j < |c.metas| && BlockDone(c, history[i], j)
    ensures BlockDone(c, history[k], j)
  {
    if i < k {
      DoneStays(c, history, i, k - 1, j);
      assert StepAt(c, history, k - 1);
      var op :| StepBy(c, history[k - 1], op, history[k]);
      StepKeepsDone(c, history[k - 1], op, history[k], j);
    }
  }

  /** A wanted backend stays populated. */
  lemma {:induction false} WantedStays(c: Run, history: seq<Kernel>, i: nat, k: nat, id: nat)
    requires ValidRun(c) && Stepwise(c, history) && i <= k < |history| && id in c.wanted && id in history[i].backends
    ensures id in history[k].backends
  {
    if i < k {
      WantedStays(c, history, i, k - 1, id);
      assert StepAt(c, history, k - 1);
      var op :| StepBy(c, history[k - 1], op, history[k]);
    }
  }
}
