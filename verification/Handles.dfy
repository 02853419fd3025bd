/**
 Reference accounting of read handles. A handle pins an item, may be attached to
 the statistics of one cache, and is counted in a global counter that every thread
 batches locally. Handles, items, statistics objects and threads are numbered; each
 operation of the source is a method, and any thread may run it.
 */
module Handles {
  import opened Basics
  import opened Modular
  import opened Seqs

  const SHARDS: nat := 64
  const BATCH: int := 64

  /** refcount_, per_cache_stats_ and notifier_; the notifier of a cache carries the number of its statistics. */
  datatype Handle = Handle(item: Option<nat>, stats: Option<nat>, notifier: Option<nat>)

  const EMPTY: Handle := Handle(None, None, None)

  function Pins(i: nat): Handle -> bool { (h: Handle) => h.item == Some(i) }

  function Attached(s: nat): Handle -> bool { (h: Handle) => h.item.Some? && h.stats == Some(s) }

  function Live(): Handle -> bool { (h: Handle) => h.item.Some? }

  function B(b: bool): int { if b then 1 else 0 }

  function Id(): int -> int { x => x }

  // ------------------------------------------------------------------
  // Wrap-around counters
  // ------------------------------------------------------------------

  ghost predicate IsCounter(shards: seq<int>) {
    |shards| == SHARDS && forall i :: 0 <= i < |shards| ==> 0 <= shards[i] < U64
  }

  function Sum(s: seq<int>): int { SumBy(s, Id()) }

  /** One shard moving, even around the end, moves the total by as much modulo 2^64. */
  lemma ShardMoves(shards: seq<int>, i: nat, d: int)
    requires i < |shards|
    ensures Cong(Sum(shards[i := Wrapped(shards[i], d)]), Sum(shards) + d)
  {
    var x := Wrapped(shards[i], d);
    SumUpdate(shards, i, x, Id());
    assert Sum(shards[i := x]) - (Sum(shards) + d) == x - (shards[i] + d);
  }

  // ------------------------------------------------------------------
  // The three laws
  // ------------------------------------------------------------------

  /** An item's access count is its live handles and the pins not yet wrapped in one. */
  ghost predicate ItemsOk(handles: seq<Handle>, counts: seq<int>, prePins: seq<nat>) {
    |counts| == |prePins| && forall i :: 0 <= i < |counts| ==> counts[i] == prePins[i] + CountIf(handles, Pins(i))
  }

  /** A live cache's shards add up to the live handles attached to it. */
  ghost predicate StatsOk(handles: seq<Handle>, shards: seq<seq<int>>, alive: seq<bool>) {
    && |shards| == |alive|
    && forall s :: 0 <= s < |shards| ==>
         IsCounter(shards[s]) && (alive[s] ==> Cong(Sum(shards[s]), CountIf(handles, Attached(s))))
  }

  /** The global shards and the deltas still held by threads add up to the live handles. */
  ghost predicate GlobalOk(handles: seq<Handle>, global: seq<int>, pending: seq<int>) {
    GlobalCounters(global, pending) && Cong(Sum(global) + Sum(pending), CountIf(handles, Live()))
  }

  /** Pointers are good, and a counted handle carries the notifier of the cache that counts it. */
  ghost predicate HandlesOk(handles: seq<Handle>, items: nat, stats: nat) {
    forall k :: 0 <= k < |handles| ==> HandleOk(handles[k], items, stats)
  }

  ghost predicate HandleOk(h: Handle, items: nat, stats: nat) {
    && (h.item.Some? ==> h.item.value < items)
    && (h.stats.Some? ==> h.stats.value < stats && h.notifier == h.stats)
    && (h.notifier.Some? ==> h.notifier.value < stats)
  }

  lemma SlotItems(handles: seq<Handle>, k: nat, h: Handle, before: seq<int>, after: seq<int>, prePins: seq<nat>)
    requires k < |handles| && ItemsOk(handles, before, prePins) && |after| == |before|
    requires forall i :: 0 <= i < |before| ==> after[i] == before[i] - B(Pins(i)(handles[k])) + B(Pins(i)(h))
    ensures ItemsOk(handles[k := h], after, prePins)
  {
    forall i | 0 <= i < |after| ensures after[i] == prePins[i] + CountIf(handles[k := h], Pins(i)) {
      CountUpdate(handles, k, h, Pins(i));
    }
  }

  /** `after` is `before` with the attachments of `old` taken off and those of `h` put on. */
  ghost predicate StatsMoved(before: seq<seq<int>>, after: seq<seq<int>>, alive: seq<bool>, was: Handle, h: Handle)
    requires |before| == |after| == |alive|
  {
    forall s :: 0 <= s < |after| ==>
      && IsCounter(after[s])
      && (alive[s] ==> Cong(Sum(after[s]), Sum(before[s]) - B(Attached(s)(was)) + B(Attached(s)(h))))
  }

  lemma SlotStats(handles: seq<Handle>, k: nat, h: Handle, before: seq<seq<int>>, after: seq<seq<int>>,
                  alive: seq<bool>)
    requires k < |handles| && StatsOk(handles, before, alive) && |after| == |before|
    requires StatsMoved(before, after, alive, handles[k], h)
    ensures StatsOk(handles[k := h], after, alive)
  {
    forall s | 0 <= s < |after| && alive[s] ensures Cong(Sum(after[s]), CountIf(handles[k := h], Attached(s))) {
      CountUpdate(handles, k, h, Attached(s));
      var d := B(Attached(s)(h)) - B(Attached(s)(handles[k]));
      CongAdd(Sum(before[s]), CountIf(handles, Attached(s)), d, d);
      CongTrans(Sum(after[s]), Sum(before[s]) + d, CountIf(handles, Attached(s)) + d);
    }
  }

  ghost predicate GlobalCounters(global: seq<int>, pending: seq<int>) {
    IsCounter(global) && forall t :: 0 <= t < |pending| ==> -BATCH < pending[t] < BATCH
  }

  /** The global total, with what threads still hold, moves by `d`. */
  ghost predicate GlobalMoved(global: seq<int>, pending: seq<int>, global': seq<int>, pending': seq<int>, d: int) {
    && GlobalCounters(global', pending') && |pending'| == |pending|
    && Cong(Sum(global') + Sum(pending'), Sum(global) + Sum(pending) + d)
  }

  lemma SlotGlobal(handles: seq<Handle>, k: nat, h: Handle, global: seq<int>, pending: seq<int>,
                   global': seq<int>, pending': seq<int>)
    requires k < |handles| && GlobalOk(handles, global, pending)
    requires GlobalMoved(global, pending, global', pending', B(Live()(h)) - B(Live()(handles[k])))
    ensures GlobalOk(handles[k := h], global', pending')
  {
    CountUpdate(handles, k, h, Live());
    var d := B(Live()(h)) - B(Live()(handles[k]));
    CongAdd(Sum(global) + Sum(pending), CountIf(handles, Live()), d, d);
    CongTrans(Sum(global') + Sum(pending'), Sum(global) + Sum(pending) + d, CountIf(handles, Live()) + d);
  }

  lemma GlobalTwice(g0: seq<int>, p0: seq<int>, g1: seq<int>, p1: seq<int>, g2: seq<int>, p2: seq<int>, d: int, e: int)
    requires GlobalMoved(g0, p0, g1, p1, d) && GlobalMoved(g1, p1, g2, p2, e)
    ensures GlobalMoved(g0, p0, g2, p2, d + e)
  {
    CongAdd(Sum(g1) + Sum(p1), Sum(g0) + Sum(p0) + d, e, e);
    CongTrans(Sum(g2) + Sum(p2), Sum(g1) + Sum(p1) + e, Sum(g0) + Sum(p0) + d + e);
  }

  lemma StatsTwice(a: seq<seq<int>>, b: seq<seq<int>>, c: seq<seq<int>>, alive: seq<bool>, was: Handle, h: Handle)
    requires |a| == |b| == |c| == |alive|
    requires StatsMoved(a, b, alive, EMPTY, h) && StatsMoved(b, c, alive, was, EMPTY)
    ensures StatsMoved(a, c, alive, was, h)
  {
    forall s | 0 <= s < |c| && alive[s] ensures Cong(Sum(c[s]), Sum(a[s]) - B(Attached(s)(was)) + B(Attached(s)(h))) {
      var d := -B(Attached(s)(was));
      CongAdd(Sum(b[s]), Sum(a[s]) + B(Attached(s)(h)), d, d);
      CongTrans(Sum(c[s]), Sum(b[s]) + d, Sum(a[s]) + B(Attached(s)(h)) + d);
    }
  }

  /** Moving one shard of cache `s` accounts for one handle coming or going. */
  lemma OneShard(shards: seq<seq<int>>, alive: seq<bool>, s: nat, i: nat, was: Handle, h: Handle)
    requires |shards| == |alive| && s < |shards| && i < |shards[s]|
    requires forall r :: 0 <= r < |shards| ==> IsCounter(shards[r])
    requires forall r :: 0 <= r < |shards| && r != s && alive[r] ==> B(Attached(r)(h)) == B(Attached(r)(was))
    ensures var d := B(Attached(s)(h)) - B(Attached(s)(was));
            StatsMoved(shards, shards[s := shards[s][i := Wrapped(shards[s][i], d)]], alive, was, h)
  {
    var d := B(Attached(s)(h)) - B(Attached(s)(was));
    ShardMoves(shards[s], i, d);
    forall r | 0 <= r < |shards| ensures Cong(Sum(shards[r]), Sum(shards[r])) { CongSame(Sum(shards[r])); }
  }

  lemma NoShard(shards: seq<seq<int>>, alive: seq<bool>, was: Handle, h: Handle)
    requires |shards| == |alive|
    requires forall r :: 0 <= r < |shards| ==> IsCounter(shards[r])
    requires forall r :: 0 <= r < |shards| && alive[r] ==> B(Attached(r)(h)) == B(Attached(r)(was))
    ensures StatsMoved(shards, shards, alive, was, h)
  {
    forall r | 0 <= r < |shards| ensures Cong(Sum(shards[r]), Sum(shards[r])) { CongSame(Sum(shards[r])); }
  }

  // ------------------------------------------------------------------
  // The operations
  // ------------------------------------------------------------------

  class World {
    const statsShard: nat -> nat       // which shard a thread uses, by its hash
    const globalShard: nat -> nat
    var handles: seq<Handle>
    var counts: seq<int>
    var shards: seq<seq<int>>
    var alive: seq<bool>               // cache_alive, by cache
    var global: seq<int>
    var pending: seq<int>              // by thread
    ghost var prePins: seq<nat>        // pins taken by find_and_pin() and not yet wrapped in a handle

    ghost predicate Valid()
      reads this
    {
      && ItemsOk(handles, counts, prePins)
      && StatsOk(handles, shards, alive)
      && GlobalOk(handles, global, pending)
      && HandlesOk(handles, |counts|, |shards|)
    }

    constructor (statsShard: nat -> nat, globalShard: nat -> nat,
                 handleCount: nat, items: nat, caches: nat, threads: nat)
      ensures Valid() && handles == seq(handleCount, _ => EMPTY) && |counts| == items && |pending| == threads
      ensures |shards| == caches && alive == seq(caches, _ => true)
    {
      this.statsShard, this.globalShard := statsShard, globalShard;
      handles, counts, prePins := seq(handleCount, _ => EMPTY), seq(items, _ => 0), seq(items, _ => 0);
      shards, alive := seq(caches, _ => seq(SHARDS, _ => 0)), seq(caches, _ => true);
      global, pending := seq(SHARDS, _ => 0), seq(threads, _ => 0);
      new;
      forall i | 0 <= i < items ensures CountIf(handles, Pins(i)) == 0 { CountNone(handles, Pins(i)); }
      forall s | 0 <= s < caches ensures CountIf(handles, Attached(s)) == 0 { CountNone(handles, Attached(s)); }
      CountNone(handles, Live());
      forall s | 0 <= s < caches ensures Sum(shards[s]) == 0 { SumZero(shards[s], Id()); }
      SumZero(global, Id());
      SumZero(pending, Id());
    }

    /** Publishes what a thread holds; also runs when the thread exits. */
    method FlushThread(t: nat)
      requires t < |pending| && IsCounter(global)
      requires forall u :: 0 <= u < |pending| && u != t ==> -BATCH < pending[u] < BATCH
      modifies this`global, this`pending
      ensures GlobalMoved(old(global), old(pending), global, pending, 0) && pending == old(pending)[t := 0]
      ensures var i := globalShard(t) % SHARDS;
              global == old(global)[i := Wrapped(old(global)[i], old(pending)[t])]
    {
      var i, d := globalShard(t) % SHARDS, pending[t];
      ShardMoves(global, i, d);
      SumUpdate(pending, t, 0, Id());
      CongAdd(Sum(global[i := Wrapped(global[i], d)]), Sum(global) + d, Sum(pending) - d, Sum(pending) - d);
      CongSame(Sum(global) + Sum(pending));
      if pending[t] == 0 { return; }
      global := global[i := Wrapped(global[i], d)];
      pending := pending[t := 0];
    }

    /** sharded_active_count_inc() and _dec(): a full batch is published. */
    method Note(t: nat, d: int)
      requires t < |pending| && GlobalCounters(global, pending) && (d == 1 || d == -1)
      modifies this`global, this`pending
      ensures GlobalMoved(old(global), old(pending), global, pending, d)
      ensures var i, p := globalShard(t) % SHARDS, old(pending)[t] + d;
              if -BATCH < p < BATCH then global == old(global) && pending == old(pending)[t := p]
              else global == old(global)[i := Wrapped(old(global)[i], p)] && pending == old(pending)[t := 0]
    {
      SumUpdate(pending, t, pending[t] + d, Id());
      CongSame(Sum(global) + Sum(pending) + d);
      pending := pending[t := pending[t] + d];
      if pending[t] >= BATCH || pending[t] <= -BATCH { FlushThread(t); }
    }

    /** The counter of cache `s` moves by `d`, in the running thread's shard. */
    method Count(t: nat, s: nat, d: int, ghost was: Handle, ghost h: Handle)
      requires |shards| == |alive| && s < |shards| && d == B(Attached(s)(h)) - B(Attached(s)(was))
      requires forall r :: 0 <= r < |shards| ==> IsCounter(shards[r])
      requires forall r :: 0 <= r < |shards| && r != s && alive[r] ==> B(Attached(r)(h)) == B(Attached(r)(was))
      modifies this`shards
      ensures |shards| == |old(shards)| && StatsMoved(old(shards), shards, alive, was, h)
      ensures |old(shards)[s]| == SHARDS
      ensures var i := statsShard(t) % SHARDS;
              shards == old(shards)[s := old(shards)[s][i := Wrapped(old(shards)[s][i], d)]]
      ensures d == 1 || d == -1 ==> shards[s] != old(shards)[s]
    {
      var i := statsShard(t) % SHARDS;
      ghost var x := shards[s][i];
      OneShard(shards, alive, s, i, was, h);
      shards := shards[s := shards[s][i := Wrapped(shards[s][i], d)]];
      assert shards[s][i] == Wrapped(x, d);
    }

    ghost predicate Counters()
      reads this
    {
      && |shards| == |alive| && (forall s :: 0 <= s < |shards| ==> IsCounter(shards[s]))
      && GlobalCounters(global, pending)
    }

    /** What follows a successful incRef(), or a pin taken by the caller. */
    method CountIn(t: nat, h: Handle)
      requires Counters() && t < |pending| && h.item.Some?
      requires h.stats.Some? ==> h.stats.value < |shards|
      modifies this`shards, this`global, this`pending
      ensures |shards| == |old(shards)| && StatsMoved(old(shards), shards, alive, EMPTY, h)
      ensures GlobalMoved(old(global), old(pending), global, pending, 1)
      ensures forall s :: 0 <= s < |shards| ==> (shards[s] != old(shards)[s] <==> Attached(s)(h))
    {
      Note(t, 1);
      if h.stats.Some? {
        Count(t, h.stats.value, 1, EMPTY, h);
      } else {
        NoShard(shards, alive, EMPTY, h);
      }
    }

    /** release() of a handle that pins an item: the cache's counter is touched only while the cache is alive. */
    method CountOut(t: nat, h: Handle)
      requires Counters() && t < |pending| && h.item.Some? && HandleOk(h, |counts|, |shards|)
      modifies this`counts, this`shards, this`global, this`pending
      ensures counts == old(counts)[h.item.value := old(counts)[h.item.value] - 1]
      ensures |shards| == |old(shards)| && StatsMoved(old(shards), shards, alive, h, EMPTY)
      ensures GlobalMoved(old(global), old(pending), global, pending, -1)
      ensures forall s :: 0 <= s < |shards| && !alive[s] ==> shards[s] == old(shards)[s]
    {
      counts := counts[h.item.value := counts[h.item.value] - 1];
      Note(t, -1);
      var cacheAlive := h.notifier.None? || alive[h.notifier.value];
      if cacheAlive && h.stats.Some? {
        Count(t, h.stats.value, -1, h, EMPTY);
      } else {
        NoShard(shards, alive, h, EMPTY);
      }
    }

    /** Makes a handle that pins nothing pin an item. */
    method Fill(t: nat, k: nat, h: Handle)
      requires Valid() && t < |pending| && k < |handles| && handles[k].item.None?
      requires h.item.Some? && HandleOk(h, |counts|, |shards|)
      modifies this`handles, this`counts, this`shards, this`global, this`pending
      ensures Valid() && handles == old(handles)[k := h]
      ensures |shards| == |old(shards)| && |pending| == |old(pending)|
      ensures forall s :: 0 <= s < |shards| ==> (shards[s] != old(shards)[s] <==> Attached(s)(h))
    {
      ghost var hs, cs, sh, g, p := handles, counts, shards, global, pending;
      counts := counts[h.item.value := counts[h.item.value] + 1];
      CountIn(t, h);
      handles := handles[k := h];
      SlotItems(hs, k, h, cs, counts, prePins);
      SlotStats(hs, k, h, sh, shards, alive);
      SlotGlobal(hs, k, h, g, p, global, pending);
    }

    /** Overwrites a handle that pins nothing with one that pins nothing. */
    method Refill(k: nat, h: Handle)
      requires Valid() && k < |handles| && handles[k].item.None? && h.item.None? && HandleOk(h, |counts|, |shards|)
      modifies this`handles
      ensures Valid() && handles == old(handles)[k := h]
    {
      NoShard(shards, alive, handles[k], h);
      CongSame(Sum(global) + Sum(pending));
      SlotItems(handles, k, h, counts, counts, prePins);
      SlotStats(handles, k, h, shards, shards, alive);
      SlotGlobal(handles, k, h, global, pending, global, pending);
      handles := handles[k := h];
    }

    /** Constructors: incRef() may fail, and then the handle is empty. */
    method Construct(t: nat, k: nat, item: Option<nat>, stats: Option<nat>, incRefOk: bool)
      requires Valid() && t < |pending| && k < |handles| && handles[k] == EMPTY
      requires item.Some? ==> item.value < |counts|
      requires stats.Some? ==> stats.value < |shards| && alive[stats.value]
      modifies this`handles, this`counts, this`shards, this`global, this`pending
      ensures Valid()
      ensures var h := if item.None? then Handle(None, stats, stats)
                       else if incRefOk then Handle(item, stats, stats) else Handle(None, None, stats);
              handles == old(handles)[k := h]
      ensures |shards| == |old(shards)| && |pending| == |old(pending)|
      ensures forall s :: 0 <= s < |shards| && !alive[s] ==> shards[s] == old(shards)[s]
    {
      var h := if item.None? then Handle(None, stats, stats)
               else if incRefOk then Handle(item, stats, stats) else Handle(None, None, stats);
      if h.item.Some? { Fill(t, k, h); } else { Refill(k, h); }
    }

    /** find_and_pin(): the table pins an item before any handle exists. */
    method FindAndPin(i: nat)
      requires Valid() && i < |counts|
      modifies this`counts, this`prePins
      ensures Valid() && counts == old(counts)[i := old(counts)[i] + 1]
      ensures prePins == old(prePins)[i := old(prePins)[i] + 1]
    {
      counts := counts[i := counts[i] + 1];
      prePins := prePins[i := prePins[i] + 1];
    }

    /** The pre-pinned constructor: the pin becomes the handle's. */
    method ConstructPrePinned(t: nat, k: nat, i: nat, stats: Option<nat>)
      requires Valid() && t < |pending| && k < |handles| && handles[k] == EMPTY && i < |counts| && prePins[i] > 0
      requires stats.Some? ==> stats.value < |shards| && alive[stats.value]
      modifies this`handles, this`shards, this`global, this`pending, this`prePins
      ensures Valid() && handles == old(handles)[k := Handle(Some(i), stats, stats)]
      ensures prePins == old(prePins)[i := old(prePins)[i] - 1] && |shards| == |old(shards)|
      ensures forall s :: 0 <= s < |shards| && !alive[s] ==> shards[s] == old(shards)[s]
    {
      ghost var hs, sh, g, p, fewer := handles, shards, global, pending, prePins[i := prePins[i] - 1];
      var h := Handle(Some(i), stats, stats);
      assert ItemsOk(hs, counts[i := counts[i] - 1], fewer);
      CountIn(t, h);
      handles := handles[k := h];
      prePins := fewer;
      SlotItems(hs, k, h, counts[i := counts[i] - 1], counts, fewer);
      SlotStats(hs, k, h, sh, shards, alive);
      SlotGlobal(hs, k, h, g, p, global, pending);
    }

    /** Copy construction from handle `j`. It counts the copy without asking whether the cache is still alive. */
    method CopyConstruct(t: nat, k: nat, j: nat, incRefOk: bool)
      requires Valid() && t < |pending| && k < |handles| && j < |handles| && handles[k] == EMPTY
      modifies this`handles, this`counts, this`shards, this`global, this`pending
      ensures Valid()
      ensures var other := old(handles)[j];
              var h := if other.item.Some? && !incRefOk then Handle(None, None, other.notifier) else other;
              handles == old(handles)[k := h]
      ensures |shards| == |old(shards)|
      ensures forall s :: 0 <= s < |shards| ==>
                (shards[s] != old(shards)[s] <==> incRefOk && Attached(s)(old(handles)[j]))
    {
      var other := handles[j];
      var h := if other.item.Some? && !incRefOk then Handle(None, None, other.notifier) else other;
      if h.item.Some? { Fill(t, k, h); } else { Refill(k, h); }
    }

    /** release(); a handle that pins nothing is left alone. */
    method Release(t: nat, k: nat)
      requires Valid() && t < |pending| && k < |handles|
      modifies this`handles, this`counts, this`shards, this`global, this`pending
      ensures Valid()
      ensures var h := old(handles)[k];
              handles == old(handles)[k := if h.item.Some? then Handle(None, None, h.notifier) else h]
      ensures forall s :: 0 <= s < |shards| && !alive[s] ==> shards[s] == old(shards)[s]
      ensures |counts| == |old(counts)| && |shards| == |old(shards)| && |pending| == |old(pending)|
    {
      ghost var hs, cs, sh, g, p := handles, counts, shards, global, pending;
      var h := handles[k];
      if h.item.None? { return; }
      CountOut(t, h);
      var gone := Handle(None, None, h.notifier);
      handles := handles[k := gone];
      SlotItems(hs, k, gone, cs, counts, prePins);
      SlotStats(hs, k, gone, sh, shards, alive);
      SlotGlobal(hs, k, gone, g, p, global, pending);
    }

    /**
     Copy assignment: the new item is pinned before the old one is let go. Letting go spares
     a cache that no longer exists; pinning does not ask.
     */
    method CopyAssign(t: nat, k: nat, j: nat, incRefOk: bool)
      requires Valid() && t < |pending| && k < |handles| && j < |handles|
      modifies this`handles, this`counts, this`shards, this`global, this`pending
      ensures Valid()
      ensures var mine, other := old(handles)[k], old(handles)[j];
              handles == if k == j then old(handles)
                         else if other.item.Some? && !incRefOk then old(handles)[k := Handle(None, None, mine.notifier)]
                         else old(handles)[k := other]
      ensures |shards| == |old(shards)|
      ensures forall s :: 0 <= s < |shards| && !alive[s] ==>
                (shards[s] != old(shards)[s] <==> k != j && incRefOk && Attached(s)(old(handles)[j]))
    {
      if k == j { return; }
      var other := handles[j];
      if other.item.None? || !incRefOk {
        Release(t, k);
        var h := if other.item.None? then other else Handle(None, None, handles[k].notifier);
        Refill(k, h);
        return;
      }
      if handles[k].item.Some? { Reassign(t, k, other); } else { Fill(t, k, other); }
    }

    /** Pins the new item, then lets the old one go. */
    method Reassign(t: nat, k: nat, other: Handle)
      requires Valid() && t < |pending| && k < |handles| && handles[k].item.Some?
      requires other.item.Some? && HandleOk(other, |counts|, |shards|)
      modifies this`handles, this`counts, this`shards, this`global, this`pending
      ensures Valid() && handles == old(handles)[k := other] && |shards| == |old(shards)|
      ensures forall s :: 0 <= s < |shards| && !alive[s] ==> (shards[s] != old(shards)[s] <==> Attached(s)(other))
    {
      ghost var hs, cs, sh, g, p := handles, counts, shards, global, pending;
      counts := counts[other.item.value := counts[other.item.value] + 1];
      CountIn(t, other);
      ghost var sh1, g1, p1 := shards, global, pending;
      CountOut(t, handles[k]);
      StatsTwice(sh, sh1, shards, alive, hs[k], other);
      GlobalTwice(g, p, g1, p1, global, pending, 1, -1);
      handles := handles[k := other];
      SlotItems(hs, k, other, cs, counts, prePins);
      SlotStats(hs, k, other, sh, shards, alive);
      SlotGlobal(hs, k, other, g, p, global, pending);
    }

    /** The handle `j` becomes empty and `k`, which pins nothing, becomes what `j` was. */
    method Transfer(k: nat, j: nat)
      requires Valid() && k < |handles| && j < |handles| && k != j && handles[k].item.None?
      modifies this`handles
      ensures Valid() && handles == old(handles)[k := old(handles)[j]][j := EMPTY]
    {
      ghost var hs := handles;
      forall i | 0 <= i < |counts| ensures CountIf(hs[k := hs[j]][j := EMPTY], Pins(i)) == CountIf(hs, Pins(i)) {
        MoveKeeps(hs, k, j, Pins(i));
      }
      forall s | 0 <= s < |shards|
        ensures CountIf(hs[k := hs[j]][j := EMPTY], Attached(s)) == CountIf(hs, Attached(s)) {
        MoveKeeps(hs, k, j, Attached(s));
      }
      MoveKeeps(hs, k, j, Live());
      handles := handles[k := handles[j]][j := EMPTY];
    }

    method MoveConstruct(k: nat, j: nat)
      requires Valid() && k < |handles| && j < |handles| && k != j && handles[k] == EMPTY
      modifies this`handles
      ensures Valid() && handles == old(handles)[k := old(handles)[j]][j := EMPTY]
    {
      Transfer(k, j);
    }

    method MoveAssign(t: nat, k: nat, j: nat)
      requires Valid() && t < |pending| && k < |handles| && j < |handles|
      modifies this`handles, this`counts, this`shards, this`global, this`pending
      ensures Valid()
      ensures handles == if k == j then old(handles) else old(handles)[k := old(handles)[j]][j := EMPTY]
      ensures forall s :: 0 <= s < |shards| && !alive[s] ==> shards[s] == old(shards)[s]
    {
      if k == j { return; }
      Release(t, k);
      Transfer(k, j);
    }

    /** Takes a handle off the old cache's counter and puts it on the new one's. */
    method Recount(t: nat, was: Handle, h: Handle)
      requires Counters() && t < |pending| && h.item == was.item && h.stats != was.stats
      requires was.stats.Some? ==> was.stats.value < |shards|
      requires h.stats.Some? ==> h.stats.value < |shards| && alive[h.stats.value]
      modifies this`shards
      ensures |shards| == |old(shards)| && StatsMoved(old(shards), shards, alive, was, h)
      ensures forall s :: 0 <= s < |shards| && !alive[s] ==> (shards[s] != old(shards)[s] <==> Attached(s)(was))
    {
      ghost var bare, sh := Handle(was.item, None, None), shards;
      if was.stats.Some? && was.item.Some? {
        Count(t, was.stats.value, -1, was, bare);
      } else {
        NoShard(shards, alive, was, bare);
      }
      ghost var sh1 := shards;
      if h.stats.Some? && h.item.Some? {
        Count(t, h.stats.value, 1, bare, h);
      } else {
        NoShard(shards, alive, bare, h);
      }
      StatsVia(sh, sh1, shards, alive, was, bare, h);
    }

    /**
     attach_per_cache_stats(): moves the handle from one cache's counter to another's, without
     asking whether the old cache is still alive.
     */
    method Attach(t: nat, k: nat, stats: Option<nat>)
      requires Valid() && t < |pending| && k < |handles|
      requires stats.Some? ==> stats.value < |shards| && alive[stats.value]
      modifies this`handles, this`shards
      ensures Valid()
      ensures var h := old(handles)[k];
              handles == if h.stats == stats then old(handles) else old(handles)[k := Handle(h.item, stats, stats)]
      ensures |shards| == |old(shards)|
      ensures forall s :: 0 <= s < |shards| && !alive[s] ==>
                (shards[s] != old(shards)[s] <==> Attached(s)(old(handles)[k]))
    {
      ghost var hs, sh := handles, shards;
      var was := handles[k];
      if was.stats == stats { return; }
      var h := Handle(was.item, stats, stats);
      Recount(t, was, h);
      handles := handles[k := h];
      SlotItems(hs, k, h, counts, counts, prePins);
      SlotStats(hs, k, h, sh, shards, alive);
      CongSame(Sum(global) + Sum(pending));
      SlotGlobal(hs, k, h, global, pending, global, pending);
    }

    /** The cache is destroyed; handles may outlive it. */
    method DestroyCache(s: nat)
      requires Valid() && s < |alive|
      modifies this`alive
      ensures Valid() && alive == old(alive)[s := false]
    {
      alive := alive[s := false];
    }

    /** load(): for a live cache, the number of live handles attached to it. */
    method Load(s: nat) returns (n: int)
      requires Valid() && s < |shards|
      ensures 0 <= n < U64 && (alive[s] ==> n == CountIf(handles, Attached(s)) % U64)
    {
      n := SumShards(shards[s]);
      if alive[s] { CongMod(n, Sum(shards[s]), CountIf(handles, Attached(s))); }
    }

    /** active_count(): off by at most 63 for every other thread. */
    method ActiveCount(t: nat) returns (n: int, ghost lag: int)
      requires Valid() && t < |pending|
      modifies this`global, this`pending
      ensures Valid() && 0 <= n < U64
      ensures n == (CountIf(handles, Live()) - lag) % U64 && -63 * (|pending| - 1) <= lag <= 63 * (|pending| - 1)
    {
      ghost var g, p := global, pending;
      FlushThread(t);
      CongTrans(Sum(global) + Sum(pending), Sum(g) + Sum(p), CountIf(handles, Live()));
      lag := Sum(pending);
      Lag(pending, t);
      n := SumShards(global);
      CongAdd(Sum(global) + Sum(pending), CountIf(handles, Live()), lag, lag);
      CongSame(lag);
      CongMod(n, Sum(global), CountIf(handles, Live()) - lag);
    }
  }

  /** A handle that outlives its cache: copying it writes the counter of the destroyed cache. */
  method CopyAfterDestroy() returns (before: seq<int>, after: seq<int>, cacheAlive: bool)
    ensures before != after && !cacheAlive
  {
    var w := new World(t => t, t => t, 2, 1, 1, 1);
    w.Construct(0, 0, Some(0), Some(0), true);
    w.DestroyCache(0);
    before, cacheAlive := w.shards[0], w.alive[0];
    w.CopyConstruct(0, 1, 0, true);
    after := w.shards[0];
  }

  lemma MoveKeeps(hs: seq<Handle>, k: nat, j: nat, p: Handle -> bool)
    requires k < |hs| && j < |hs| && k != j && !p(hs[k]) && !p(EMPTY)
    ensures CountIf(hs[k := hs[j]][j := EMPTY], p) == CountIf(hs, p)
  {
    CountUpdate(hs, k, hs[j], p);
    CountUpdate(hs[k := hs[j]], j, EMPTY, p);
  }

  lemma StatsVia(a: seq<seq<int>>, b: seq<seq<int>>, c: seq<seq<int>>, alive: seq<bool>,
                 was: Handle, bare: Handle, h: Handle)
    requires |a| == |b| == |c| == |alive|
    requires StatsMoved(a, b, alive, was, bare) && StatsMoved(b, c, alive, bare, h)
    ensures StatsMoved(a, c, alive, was, h)
  {
    forall s | 0 <= s < |c| && alive[s] ensures Cong(Sum(c[s]), Sum(a[s]) - B(Attached(s)(was)) + B(Attached(s)(h))) {
      var d := B(Attached(s)(h)) - B(Attached(s)(bare));
      CongAdd(Sum(b[s]), Sum(a[s]) - B(Attached(s)(was)) + B(Attached(s)(bare)), d, d);
      CongTrans(Sum(c[s]), Sum(b[s]) + d, Sum(a[s]) - B(Attached(s)(was)) + B(Attached(s)(h)));
    }
  }

  /** The sum of 64 wrap-around counters, itself wrapping. */
  method SumShards(shards: seq<int>) returns (n: int)
    ensures 0 <= n < U64 && Cong(n, Sum(shards))
  {
    n := 0;
    for i := 0 to |shards|
      invariant 0 <= n < U64 && Cong(n, Sum(shards[..i]))
    {
      assert shards[..i + 1][..i] == shards[..i];
      CongSame(shards[i]);
      CongAdd(n, Sum(shards[..i]), shards[i], shards[i]);
      CongTrans(Wrapped(n, shards[i]), n + shards[i], Sum(shards[..i]) + shards[i]);
      n := Wrapped(n, shards[i]);
    }
    assert shards[..|shards|] == shards;
  }

  lemma {:induction false} LagAll(pending: seq<int>)
    requires forall u :: 0 <= u < |pending| ==> -BATCH < pending[u] < BATCH
    ensures -63 * |pending| <= Sum(pending) <= 63 * |pending|
  {
    if pending != [] { LagAll(pending[..|pending| - 1]); }
  }

  lemma {:induction false} Lag(pending: seq<int>, t: nat)
    requires t < |pending| && pending[t] == 0
    requires forall u :: 0 <= u < |pending| ==> -BATCH < pending[u] < BATCH
    ensures -63 * (|pending| - 1) <= Sum(pending) <= 63 * (|pending| - 1)
  {
    var m := |pending| - 1;
    if t == m { LagAll(pending[..m]); } else { Lag(pending[..m], t); }
  }
}
