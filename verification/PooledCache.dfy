/**
 The pooled cache, one operation at a time: the name index kept through
 swap-and-pop, the cached eviction order, cross-pool eviction by priority, and the
 global limits. The cache inside a pool is abstract: an operation on it may leave
 any size and memory, evicting from a non-empty pool takes one item out, and an
 empty pool uses no memory. Module PoolTotals treats the totals under concurrency.
 */
module PooledCache {
  import opened Basics
  import opened Seqs

  datatype Pool = Pool(name: string, priority: nat, size: nat, memory: nat)

  function SizeOf(): Pool -> int { (p: Pool) => p.size }

  function MemoryOf(): Pool -> int { (p: Pool) => p.memory }

  predicate PoolOk(p: Pool) { p.priority >= 1 && p.name != "" && (p.size == 0 ==> p.memory == 0) }

  // ------------------------------------------------------------------
  // The name index
  // ------------------------------------------------------------------

  /** Names and positions correspond one to one. */
  ghost predicate IndexOk(pools: seq<Pool>, index: map<string, nat>) {
    && (forall i :: 0 <= i < |pools| ==> pools[i].name in index && index[pools[i].name] == i)
    && (forall n :: n in index ==> index[n] < |pools| && pools[index[n]].name == n)
  }

  lemma AppendedIndex(pools: seq<Pool>, index: map<string, nat>, p: Pool)
    requires IndexOk(pools, index) && p.name !in index && AllOk(pools) && PoolOk(p)
    ensures IndexOk(pools + [p], index[p.name := |pools|]) && AllOk(pools + [p])
  {
  }

  /** What swap-and-pop leaves: the last pool moves into the gap. */
  function SwapPop(pools: seq<Pool>, i: nat): seq<Pool>
    requires i < |pools|
  {
    pools[i := pools[|pools| - 1]][..|pools| - 1]
  }

  function SwapPopIndex(pools: seq<Pool>, index: map<string, nat>, i: nat): map<string, nat>
    requires i < |pools|
  {
    var rest := index - {pools[i].name};
    if i == |pools| - 1 then rest else rest[pools[|pools| - 1].name := i]
  }

  lemma SwapPopIndexOk(pools: seq<Pool>, index: map<string, nat>, i: nat)
    requires IndexOk(pools, index) && i < |pools| && AllOk(pools)
    ensures IndexOk(SwapPop(pools, i), SwapPopIndex(pools, index, i)) && AllOk(SwapPop(pools, i))
    ensures SwapPopIndex(pools, index, i).Keys == index.Keys - {pools[i].name}
  {
  }

  /** Swap-and-pop removes exactly the named pool. */
  lemma SwapPopRemoves(pools: seq<Pool>, i: nat)
    requires i < |pools|
    ensures multiset(SwapPop(pools, i)) + multiset{pools[i]} == multiset(pools)
  {
    var m := |pools| - 1;
    if i == m {
      assert pools == pools[..m] + [pools[m]] && SwapPop(pools, i) == pools[..m];
    } else {
      var mid := pools[i + 1..m];
      assert pools == pools[..i] + [pools[i]] + mid + [pools[m]];
      assert SwapPop(pools, i) == pools[..i] + [pools[m]] + mid;
      assert multiset(pools[..i] + [pools[i]] + mid + [pools[m]])
          == multiset(pools[..i]) + multiset{pools[i]} + multiset(mid) + multiset{pools[m]};
    }
  }

  // ------------------------------------------------------------------
  // The eviction order
  // ------------------------------------------------------------------

  /** Lower priority first; among equals, the larger pool first. */
  predicate Less(a: Pool, b: Pool) { if a.priority != b.priority then a.priority < b.priority else a.size > b.size }

  ghost predicate Permutation(order: seq<nat>, n: nat) {
    && |order| == n && Distinct(order) && (forall i :: 0 <= i < n ==> order[i] < n)
    && (forall k :: 0 <= k < n ==> k in order)
  }

  ghost predicate ByPriority(order: seq<nat>, pools: seq<Pool>)
    requires forall i :: 0 <= i < |order| ==> order[i] < |pools|
  {
    forall i, j :: 0 <= i < j < |order| ==> pools[order[i]].priority <= pools[order[j]].priority
  }

  ghost predicate Sorted(order: seq<nat>, pools: seq<Pool>)
    requires forall i :: 0 <= i < |order| ==> order[i] < |pools|
  {
    forall i, j :: 0 <= i < j < |order| ==> !Less(pools[order[j]], pools[order[i]])
  }

  lemma InsertedIn(order: seq<nat>, at: nat, k: nat)
    requires at <= |order|
    ensures var r := order[..at] + [k] + order[at..]; k in r && forall x :: x in order ==> x in r
  {
    var r := order[..at] + [k] + order[at..];
    assert r[at] == k;
    forall x | x in order ensures x in r {
      var i :| 0 <= i < |order| && order[i] == x;
      assert r[if i < at then i else i + 1] == x;
    }
  }

  lemma InsertedPermutation(order: seq<nat>, at: nat, k: nat)
    requires Permutation(order, k) && at <= k
    ensures Permutation(order[..at] + [k] + order[at..], k + 1)
  {
    InsertedIn(order, at, k);
  }

  lemma InsertedSorted(order: seq<nat>, at: nat, k: nat, pools: seq<Pool>)
    requires k < |pools| && at <= |order| && forall i :: 0 <= i < |order| ==> order[i] < |pools|
    requires Sorted(order, pools)
    requires forall i :: 0 <= i < at ==> !Less(pools[k], pools[order[i]])
    requires forall i :: at <= i < |order| ==> Less(pools[k], pools[order[i]])
    ensures Sorted(order[..at] + [k] + order[at..], pools)
  {
  }

  /** Sorts the positions of the pools. */
  method SortPositions(pools: seq<Pool>) returns (order: seq<nat>)
    ensures Permutation(order, |pools|) && Sorted(order, pools)
  {
    order := [];
    for k := 0 to |pools|
      invariant Permutation(order, k) && Sorted(order, pools)
    {
      var at := 0;
      while at < k && !Less(pools[k], pools[order[at]])
        invariant at <= k && forall i :: 0 <= i < at ==> !Less(pools[k], pools[order[i]])
      {
        at := at + 1;
      }
      RestLess(order, at, k, pools);
      InsertedPermutation(order, at, k);
      InsertedSorted(order, at, k, pools);
      order := order[..at] + [k] + order[at..];
    }
  }

  /** In a sorted order, everything after a larger element is larger. */
  lemma RestLess(order: seq<nat>, at: nat, k: nat, pools: seq<Pool>)
    requires Permutation(order, k) && k < |pools| && Sorted(order, pools) && at <= k
    requires at < k ==> Less(pools[k], pools[order[at]])
    ensures forall i :: at <= i < k ==> Less(pools[k], pools[order[i]])
  {
    forall i | at < i < k ensures Less(pools[k], pools[order[i]]) {
      assert !Less(pools[order[i]], pools[order[at]]);
    }
  }

  // ------------------------------------------------------------------
  // The cache
  // ------------------------------------------------------------------

  /** The same pools with the same priorities; sizes and memory may differ. */
  ghost predicate SamePools(a: seq<Pool>, b: seq<Pool>) {
    |a| == |b| && forall i :: 0 <= i < |a| ==> a[i].name == b[i].name && a[i].priority == b[i].priority
  }

  ghost predicate AllOk(pools: seq<Pool>) { forall i :: 0 <= i < |pools| ==> PoolOk(pools[i]) }

  /** Changing the size and memory of one pool disturbs neither names nor order. */
  lemma ChangedKeeps(pools: seq<Pool>, index: map<string, nat>, order: seq<nat>, i: nat, p: Pool)
    requires i < |pools| && p.name == pools[i].name && p.priority == pools[i].priority && IndexOk(pools, index)
    ensures IndexOk(pools[i := p], index) && SamePools(pools[i := p], pools)
    ensures Permutation(order, |pools|) && ByPriority(order, pools) ==> ByPriority(order, pools[i := p])
    ensures AllOk(pools) && PoolOk(p) ==> AllOk(pools[i := p])
  {
  }

  /** Pool `i` has the least priority value of all pools that hold anything. */
  ghost predicate MinimalVictim(pools: seq<Pool>, i: nat) {
    && i < |pools| && pools[i].size > 0
    && forall k :: 0 <= k < |pools| && pools[k].size > 0 ==> pools[i].priority <= pools[k].priority
  }

  /** Among the pools of that priority that hold anything, pool `i` is a largest one. */
  ghost predicate LargestOfThose(pools: seq<Pool>, i: nat)
    requires i < |pools|
  {
    forall k :: 0 <= k < |pools| && pools[k].priority == pools[i].priority ==> pools[k].size <= pools[i].size
  }

  /** Pool `i` has kept everything or has lost some of it. */
  ghost predicate OnlyLost(was: seq<Pool>, now: seq<Pool>, i: nat)
    requires i < |was| == |now|
  {
    && now[i].size <= was[i].size && now[i].memory <= was[i].memory
    && (now[i].size == was[i].size ==> now[i] == was[i])
  }

  /** If pool `i` has lost something, then pool `k`, if of smaller priority value, has nothing left. */
  ghost predicate LostAfter(was: seq<Pool>, now: seq<Pool>, i: nat, k: nat)
    requires i < |was| == |now| && k < |was|
  {
    now[i].size < was[i].size && now[k].priority < now[i].priority ==> now[k].size == 0
  }

  /** From `was` to `now` pools have only lost, and any that has lost leaves those of smaller priority value empty. */
  ghost predicate EvictedByPriority(was: seq<Pool>, now: seq<Pool>) {
    && SamePools(now, was)
    && (forall i :: 0 <= i < |was| ==> OnlyLost(was, now, i))
    && (forall i, k :: 0 <= i < |was| && 0 <= k < |was| ==> LostAfter(was, now, i, k))
  }

  lemma NothingEvicted(was: seq<Pool>)
    ensures EvictedByPriority(was, was)
  {
  }

  lemma EvictedOneMore(was: seq<Pool>, now: seq<Pool>, next: seq<Pool>, v: nat)
    requires EvictedByPriority(was, now) && MinimalVictim(now, v) && SamePools(next, now)
    requires next[v].size == now[v].size - 1 && next[v].memory <= now[v].memory
    requires forall k :: 0 <= k < |now| && k != v ==> next[k] == now[k]
    ensures EvictedByPriority(was, next)
  {
    forall i | 0 <= i < |was| ensures OnlyLost(was, next, i) { assert OnlyLost(was, now, i); }
    forall i, k | 0 <= i < |was| && 0 <= k < |was| ensures LostAfter(was, next, i, k) {
      assert LostAfter(was, now, i, k);
    }
  }

  lemma FirstNonEmptyIsMinimal(pools: seq<Pool>, order: seq<nat>, i: nat)
    requires Permutation(order, |pools|) && ByPriority(order, pools) && i < |order| && pools[order[i]].size > 0
    requires forall j :: 0 <= j < i ==> pools[order[j]].size == 0
    ensures MinimalVictim(pools, order[i])
    ensures Sorted(order, pools) ==> LargestOfThose(pools, order[i])
  {
    forall k | 0 <= k < |pools| && pools[k].size > 0
      ensures pools[order[i]].priority <= pools[k].priority
      ensures Sorted(order, pools) && pools[k].priority == pools[order[i]].priority ==>
                pools[k].size <= pools[order[i]].size
    {
      assert k in order;
      var j :| 0 <= j < |order| && order[j] == k;
    }
  }

  lemma AllEmpty(pools: seq<Pool>, order: seq<nat>)
    requires Permutation(order, |pools|) && forall j :: 0 <= j < |order| ==> pools[order[j]].size == 0
    ensures forall k :: 0 <= k < |pools| ==> pools[k].size == 0
  {
    forall k | 0 <= k < |pools| ensures pools[k].size == 0 {
      assert k in order;
      var j :| 0 <= j < |order| && order[j] == k;
    }
  }

  class Pools {
    var maxSize: Limit
    var maxMemory: Limit
    var pools: seq<Pool>
    var index: map<string, nat>
    var order: seq<nat>
    var dirty: bool
    var totalSize: int
    var totalMemory: int

    ghost predicate TotalsOk()
      reads this
    {
      totalSize == SumBy(pools, SizeOf()) && totalMemory == SumBy(pools, MemoryOf())
    }

    /** A clean eviction order is a permutation of the pools by current priority. */
    ghost predicate OrderOk()
      reads this
    {
      !dirty ==> Permutation(order, |pools|) && ByPriority(order, pools)
    }

    ghost predicate Valid()
      reads this
    {
      && IndexOk(pools, index) && OrderOk() && TotalsOk()
      && AllOk(pools)
    }

    constructor (maxSize: Limit, maxMemory: Limit)
      ensures Valid() && pools == [] && this.maxSize == maxSize && this.maxMemory == maxMemory
    {
      this.maxSize, this.maxMemory := maxSize, maxMemory;
      pools, index, order, dirty, totalSize, totalMemory := [], map[], [], true, 0, 0;
    }

    /** recompute_totals_unlocked(). */
    method RecomputeTotals()
      modifies this`totalSize, this`totalMemory
      ensures TotalsOk()
    {
      var s, m := 0, 0;
      for i := 0 to |pools|
        invariant s == SumBy(pools[..i], SizeOf()) && m == SumBy(pools[..i], MemoryOf())
      {
        assert pools[..i + 1][..i] == pools[..i];
        s, m := s + pools[i].size, m + pools[i].memory;
      }
      assert pools[..|pools|] == pools;
      totalSize, totalMemory := s, m;
    }

    /** add_pool(): refuses an empty name, a zero priority, a bad insertion point and a name already taken. */
    method AddPool(name: string, priority: nat, insertionPoint: Byte) returns (ok: bool)
      requires Valid()
      modifies this`pools, this`index, this`dirty, this`totalSize, this`totalMemory
      ensures Valid()
      ensures ok <==> name != "" && priority >= 1 && insertionPoint <= 7 && name !in old(index)
      ensures if ok then pools == old(pools) + [Pool(name, priority, 0, 0)] && index == old(index)[name := |old(pools)|]
              else pools == old(pools) && index == old(index)
    {
      ok := name != "" && priority >= 1 && insertionPoint <= 7 && name !in index;
      if ok { Append(Pool(name, priority, 0, 0)); }
    }

    method Append(p: Pool)
      requires Valid() && PoolOk(p) && p.name !in index
      modifies this`pools, this`index, this`dirty, this`totalSize, this`totalMemory
      ensures Valid() && pools == old(pools) + [p] && index == old(index)[p.name := |old(pools)|]
    {
      AppendedIndex(pools, index, p);
      index := index[p.name := |pools|];
      pools := pools + [p];
      dirty := true;
      RecomputeTotals();
    }

    /** remove_pool(): the last pool takes the place of the one removed. */
    method RemovePool(name: string) returns (ok: bool)
      requires Valid()
      modifies this`pools, this`index, this`dirty, this`totalSize, this`totalMemory
      ensures Valid()
      ensures ok <==> name in old(index)
      ensures if ok then pools == SwapPop(old(pools), old(index)[name]) && index.Keys == old(index).Keys - {name}
              else pools == old(pools) && index == old(index)
    {
      if name !in index { return false; }
      var i, last := index[name], |pools| - 1;
      SwapPopIndexOk(pools, index, i);
      ghost var left, names := SwapPop(pools, i), SwapPopIndex(pools, index, i);
      index := index - {name};
      if i != last {
        pools := pools[i := pools[last]];
        index := index[pools[i].name := i];
      }
      pools := pools[..last];
      assert pools == left && index == names;
      dirty := true;
      RecomputeTotals();
      return true;
    }

    /** resize_pool(): the pool's cache may evict down to `size` and `memory`. */
    method ResizePool(name: string, size: nat, memory: nat) returns (ok: bool)
      requires Valid() && (size == 0 ==> memory == 0)
      modifies this`pools, this`dirty, this`totalSize, this`totalMemory
      ensures Valid()
      ensures ok <==> name in index
      ensures pools == if ok then var i := index[name]; old(pools)[i := old(pools)[i].(size := size, memory := memory)]
                       else old(pools)
    {
      if name !in index { return false; }
      var i := index[name];
      pools := pools[i := pools[i].(size := size, memory := memory)];
      RecomputeTotals();
      dirty := true;
      return true;
    }

    /** set_pool_priority(). */
    method SetPriority(name: string, priority: nat) returns (ok: bool)
      requires Valid()
      modifies this`pools, this`dirty, this`totalSize, this`totalMemory
      ensures Valid()
      ensures ok <==> priority >= 1 && name in index
      ensures pools == if ok then var i := index[name]; old(pools)[i := old(pools)[i].(priority := priority)]
                       else old(pools)
    {
      if priority < 1 || name !in index { return false; }
      var i := index[name];
      SumUpdate(pools, i, pools[i].(priority := priority), SizeOf());
      SumUpdate(pools, i, pools[i].(priority := priority), MemoryOf());
      pools := pools[i := pools[i].(priority := priority)];
      dirty := true;
      return true;
    }

    /** update_totals_for_pool_delta(). */
    method UpdateTotals(before: Pool, after: Pool)
      modifies this`totalSize, this`totalMemory
      ensures totalSize == old(totalSize) + after.size - before.size
      ensures totalMemory == old(totalMemory) + after.memory - before.memory
    {
      if after.size > before.size {
        totalSize := totalSize + (after.size - before.size);
      } else if after.size < before.size {
        totalSize := totalSize - (before.size - after.size);
      }
      if after.memory > before.memory {
        totalMemory := totalMemory + (after.memory - before.memory);
      } else if after.memory < before.memory {
        totalMemory := totalMemory - (before.memory - after.memory);
      }
    }

    /** An operation on pool `i` and the update of the totals by its delta. */
    method ChangePool(i: nat, size: nat, memory: nat)
      requires Valid() && i < |pools| && (size == 0 ==> memory == 0)
      modifies this`pools, this`totalSize, this`totalMemory
      ensures Valid() && SamePools(pools, old(pools))
      ensures totalSize == old(totalSize) + size - old(pools)[i].size
      ensures totalMemory == old(totalMemory) + memory - old(pools)[i].memory
      ensures pools == old(pools)[i := old(pools)[i].(size := size, memory := memory)]
    {
      var before := pools[i];
      var after := before.(size := size, memory := memory);
      SumUpdate(pools, i, after, SizeOf());
      SumUpdate(pools, i, after, MemoryOf());
      ChangedKeeps(pools, index, order, i, after);
      pools := pools[i := after];
      UpdateTotals(before, after);
    }

    /** rebuild_eviction_order(): sorts again only if something changed. */
    method RebuildEvictionOrder()
      requires Valid()
      modifies this`order, this`dirty
      ensures Valid() && !dirty && (old(dirty) ==> Sorted(order, pools)) && (!old(dirty) ==> order == old(order))
    {
      if !dirty { return; }
      dirty := false;
      order := SortPositions(pools);
    }

    /** evict() on the cache of pool `k`, which holds something. */
    method EvictFrom(k: nat)
      requires Valid() && k < |pools| && pools[k].size > 0
      modifies this`pools, this`totalSize, this`totalMemory
      ensures Valid() && SamePools(pools, old(pools))
      ensures totalSize == old(totalSize) - 1 && totalMemory <= old(totalMemory)
      ensures forall j :: 0 <= j < |pools| && j != k ==> pools[j] == old(pools)[j]
      ensures pools[k].size == old(pools)[k].size - 1 && pools[k].memory <= old(pools)[k].memory
    {
      var memory: nat :| memory <= pools[k].memory && (pools[k].size == 1 ==> memory == 0);
      ChangePool(k, pools[k].size - 1, memory);
    }

    /** The first pool in the order that holds something. */
    method FirstNonEmpty() returns (found: bool, k: nat)
      requires Valid() && !dirty
      ensures found ==> MinimalVictim(pools, k) && (Sorted(order, pools) ==> LargestOfThose(pools, k))
      ensures !found ==> forall j :: 0 <= j < |pools| ==> pools[j].size == 0
    {
      for i := 0 to |order|
        invariant forall j :: 0 <= j < i ==> pools[order[j]].size == 0
      {
        if pools[order[i]].size > 0 {
          FirstNonEmptyIsMinimal(pools, order, i);
          return true, order[i];
        }
      }
      AllEmpty(pools, order);
      return false, 0;
    }

    /** evict_global(): takes one item from a non-empty pool of least priority value. */
    method EvictGlobal() returns (ok: bool, victim: nat)
      requires Valid()
      modifies this`order, this`dirty, this`pools, this`totalSize, this`totalMemory
      ensures Valid() && SamePools(pools, old(pools))
      ensures ok <==> exists k :: 0 <= k < |old(pools)| && old(pools)[k].size > 0
      ensures !ok ==> pools == old(pools)
      ensures ok ==> MinimalVictim(old(pools), victim) && totalSize == old(totalSize) - 1
      ensures ok ==> totalMemory <= old(totalMemory) && (old(dirty) ==> LargestOfThose(old(pools), victim))
      ensures ok ==> forall k :: 0 <= k < |pools| && k != victim ==> pools[k] == old(pools)[k]
      ensures ok ==> pools[victim].size == old(pools)[victim].size - 1
      ensures ok ==> pools[victim].memory <= old(pools)[victim].memory
    {
      RebuildEvictionOrder();
      ok, victim := FirstNonEmpty();
      if ok { EvictFrom(victim); }
    }

    predicate Over(size: int, memory: int)
      reads this
    {
      (maxSize.AtMost? && size > maxSize.n) || (maxMemory.AtMost? && memory > maxMemory.n)
    }

    /** should_evict_global(). */
    predicate ShouldEvict()
      reads this
    {
      Over(totalSize, totalMemory)
    }

    /** All the pools together are within the global limits. */
    ghost predicate WithinLimits()
      reads this
    {
      && (maxSize.AtMost? ==> SumBy(pools, SizeOf()) <= maxSize.n)
      && (maxMemory.AtMost? ==> SumBy(pools, MemoryOf()) <= maxMemory.n)
    }

    /** should_evict_global() asks exactly whether they are. */
    lemma LimitsMet()
      requires Valid()
      ensures ShouldEvict() <==> !WithinLimits()
    {
    }

    /** One successful round of the loop below. */
    method EvictOne(ghost was: seq<Pool>)
      requires Valid() && ShouldEvict() && EvictedByPriority(was, pools)
      modifies this`order, this`dirty, this`pools, this`totalSize, this`totalMemory
      ensures Valid() && EvictedByPriority(was, pools)
      ensures totalSize == old(totalSize) - 1 && totalMemory <= old(totalMemory) && old(totalSize) > 0
    {
      SomethingToEvict(pools, totalSize, totalMemory);
      ghost var now := pools;
      var ok, victim := EvictGlobal();
      assert ok;
      EvictedOneMore(was, now, pools, victim);
    }

    /** ensure_capacity_locked(): with nobody else at work every eviction succeeds, so it ends within the limits. */
    method EnsureCapacity() returns (ghost before: int)
      requires Valid()
      modifies this`order, this`dirty, this`pools, this`totalSize, this`totalMemory
      ensures Valid() && EvictedByPriority(old(pools), pools) && !ShouldEvict()
      ensures !old(ShouldEvict()) ==>
                pools == old(pools) && totalSize == old(totalSize) && totalMemory == old(totalMemory)
      ensures old(ShouldEvict()) ==> Over(totalSize + 1, before) && totalMemory <= before <= old(totalMemory)
    {
      before := totalMemory;
      NothingEvicted(pools);
      while ShouldEvict()
        invariant Valid() && EvictedByPriority(old(pools), pools)
        invariant !old(ShouldEvict()) ==>
                  pools == old(pools) && totalSize == old(totalSize) && totalMemory == old(totalMemory)
        invariant totalMemory <= before <= old(totalMemory)
        invariant old(ShouldEvict()) && !ShouldEvict() ==> Over(totalSize + 1, before)
        decreases totalSize
      {
        before := totalMemory;
        EvictOne(old(pools));
      }
    }

    /** set() and add(): the pool's own cache does what it will, then the global limits are met. */
    method Set(name: string, size: nat, memory: nat) returns (ok: bool, ghost mid: seq<Pool>)
      requires Valid() && (size == 0 ==> memory == 0)
      modifies this`order, this`dirty, this`pools, this`totalSize, this`totalMemory
      ensures Valid() && SamePools(pools, old(pools)) && !ShouldEvict() && WithinLimits() && (ok <==> name in index)
      ensures EvictedByPriority(old(pools), mid) && (!old(ShouldEvict()) ==> mid == old(pools))
      ensures if ok then
                var i := index[name];
                EvictedByPriority(mid[i := mid[i].(size := size, memory := memory)], pools)
              else pools == mid
      ensures ok && !old(ShouldEvict()) ==>
                var i, was := index[name], old(pools);
                !Over(old(totalSize) + size - was[i].size, old(totalMemory) + memory - was[i].memory) ==>
                  pools == was[i := was[i].(size := size, memory := memory)]
    {
      var before := EnsureCapacity();
      mid := pools;
      LimitsMet();
      ok := name in index;
      if !ok { return; }
      ChangePool(index[name], size, memory);
      before := EnsureCapacity();
      LimitsMet();
    }

    /** set_global_max_size() and set_global_max_memory(). */
    method SetGlobalLimits(size: Limit, memory: Limit)
      requires Valid()
      modifies this`maxSize, this`maxMemory, this`order, this`dirty, this`pools, this`totalSize, this`totalMemory
      ensures Valid() && maxSize == size && maxMemory == memory && !ShouldEvict() && WithinLimits()
      ensures EvictedByPriority(old(pools), pools)
    {
      maxSize, maxMemory := size, memory;
      var before := EnsureCapacity();
      LimitsMet();
    }

    /** del(). */
    method Del(name: string, size: nat, memory: nat) returns (ok: bool)
      requires Valid() && (size == 0 ==> memory == 0)
      modifies this`pools, this`totalSize, this`totalMemory
      ensures Valid() && SamePools(pools, old(pools)) && (ok <==> name in index)
      ensures pools == if ok then var i := index[name]; old(pools)[i := old(pools)[i].(size := size, memory := memory)]
                       else old(pools)
    {
      if name !in index { return false; }
      ChangePool(index[name], size, memory);
      return true;
    }
  }

  /** A positive total comes from some pool that holds something. */
  lemma SomethingToEvict(pools: seq<Pool>, size: int, memory: int)
    requires size == SumBy(pools, SizeOf()) && memory == SumBy(pools, MemoryOf()) && (size > 0 || memory > 0)
    requires AllOk(pools)
    ensures size > 0 && exists k :: 0 <= k < |pools| && pools[k].size > 0
  {
    if forall k :: 0 <= k < |pools| ==> pools[k].size == 0 {
      SumZero(pools, SizeOf());
      SumZero(pools, MemoryOf());
    }
    SumNonNegative(pools, SizeOf());
  }
}
