/**
 The pooled cache's running totals under concurrency. Taking or releasing a lock,
 a cache operation and every update of an atomic total is one step; any number of
 threads take them in any order. Size and memory are treated alike.
 */
module PoolTotals {
  import opened Basics
  import opened Modular
  import opened Seqs

  datatype Pool = Pool(size: nat, memory: nat)

  /** How a thread holds the cache-wide mutex. */
  datatype Mode = NoLock | Shared | Exclusive

  datatype Pc =
    | Idle
    | Locked(p: nat)                               // holds the lock of pool `p`
    | Before(p: nat, was: Pool)                    // has read its size and memory
    | Changed(p: nat, was: Pool, now: Pool)        // has run the cache operation
    | Delta(size: int, memory: int)                // has both snapshots and released the pool
    | DeltaMemory(memory: int)                     // has updated total_size_
    | Dirty                                        // changed the pools; totals not yet recomputed
    | SizeStored                                   // has stored total_size_

  datatype State = State(pools: seq<Pool>, totalSize: int, totalMemory: int, modes: seq<Mode>, threads: seq<Pc>)

  datatype Action =
    | LockShared | UnlockShared | LockExclusive | UnlockExclusive
    | LockPool(p: nat)
    | Snapshot
    | Operate(now: Pool)                           // set, add, del or evict: any new size and memory
    | SnapshotAndUnlock
    | AddSize
    | AddMemory
    | Restructure(pools: seq<Pool>)                // add, remove, resize or flush pools
    | StoreSize
    | StoreMemory

  predicate Holds(pc: Pc, p: nat) { (pc.Locked? || pc.Before? || pc.Changed?) && pc.p == p }

  ghost predicate Enabled(s: State, t: nat, a: Action) {
    && t < |s.threads| == |s.modes|
    && var pc, mode := s.threads[t], s.modes[t];
       match a
       case LockShared => mode == NoLock && pc == Idle && forall u :: 0 <= u < |s.modes| ==> s.modes[u] != Exclusive
       case LockExclusive => mode == NoLock && pc == Idle && forall u :: 0 <= u < |s.modes| ==> s.modes[u] == NoLock
       case UnlockShared => mode == Shared && pc == Idle
       case UnlockExclusive => mode == Exclusive && pc == Idle
       case LockPool(p) =>
         mode != NoLock && pc == Idle && p < |s.pools| && forall u :: 0 <= u < |s.threads| ==> !Holds(s.threads[u], p)
       case Snapshot => pc.Locked? && pc.p < |s.pools|
       case Operate(_) => pc.Before? && pc.p < |s.pools|
       case SnapshotAndUnlock => pc.Changed? && pc.p < |s.pools|
       case AddSize => pc.Delta?
       case AddMemory => pc.DeltaMemory?
       case Restructure(_) => mode == Exclusive && (pc == Idle || pc == Dirty)
       case StoreSize => pc == Dirty
       case StoreMemory => pc == SizeStored
  }

  function Sizes(): Pool -> int { (p: Pool) => p.size }

  function Memories(): Pool -> int { (p: Pool) => p.memory }

  function Goto(s: State, t: nat, pc: Pc): State
    requires t < |s.threads|
  {
    s.(threads := s.threads[t := pc])
  }

  ghost function Apply(s: State, t: nat, a: Action): State
    requires Enabled(s, t, a)
  {
    var pc := s.threads[t];
    match a
    case LockShared => s.(modes := s.modes[t := Shared])
    case LockExclusive => s.(modes := s.modes[t := Exclusive])
    case UnlockShared => s.(modes := s.modes[t := NoLock])
    case UnlockExclusive => s.(modes := s.modes[t := NoLock])
    case LockPool(p) => Goto(s, t, Locked(p))
    case Snapshot => Goto(s, t, Before(pc.p, s.pools[pc.p]))
    case Operate(now) => Goto(s.(pools := s.pools[pc.p := now]), t, Changed(pc.p, pc.was, now))
    case SnapshotAndUnlock =>
      Goto(s, t, Delta(s.pools[pc.p].size - pc.was.size, s.pools[pc.p].memory - pc.was.memory))
    case AddSize => Goto(s.(totalSize := Wrapped(s.totalSize, pc.size)), t, DeltaMemory(pc.memory))
    case AddMemory => Goto(s.(totalMemory := Wrapped(s.totalMemory, pc.memory)), t, Idle)
    case Restructure(pools) => Goto(s.(pools := pools), t, Dirty)
    case StoreSize => Goto(s.(totalSize := SumBy(s.pools, Sizes()) % U64), t, SizeStored)
    case StoreMemory => Goto(s.(totalMemory := SumBy(s.pools, Memories()) % U64), t, Idle)
  }

  // ------------------------------------------------------------------
  // The law
  // ------------------------------------------------------------------

  /** The change of size a thread has made but not yet added to the total. */
  function OwedSize(): Pc -> int {
    (pc: Pc) => match pc
      case Changed(_, was, now) => now.size - was.size
      case Delta(d, _) => d
      case _ => 0
  }

  function OwedMemory(): Pc -> int {
    (pc: Pc) => match pc
      case Changed(_, was, now) => now.memory - was.memory
      case Delta(_, d) => d
      case DeltaMemory(d) => d
      case _ => 0
  }

  ghost predicate Stale(s: State) { exists t :: 0 <= t < |s.threads| && s.threads[t] == Dirty }

  ghost predicate MemoryStale(s: State) {
    exists t :: 0 <= t < |s.threads| && (s.threads[t] == Dirty || s.threads[t] == SizeStored)
  }

  ghost predicate SizeLaw(s: State) { Cong(s.totalSize + SumBy(s.threads, OwedSize()), SumBy(s.pools, Sizes())) }

  ghost predicate MemoryLaw(s: State) {
    Cong(s.totalMemory + SumBy(s.threads, OwedMemory()), SumBy(s.pools, Memories()))
  }

  /** An exclusive holder is alone, a thread without the lock is idle, and only an exclusive holder recomputes. */
  ghost predicate LocksOk(s: State) {
    && |s.modes| == |s.threads|
    && (forall t, u :: 0 <= t < |s.modes| && 0 <= u < |s.modes| && t != u && s.modes[t] == Exclusive ==>
          s.modes[u] == NoLock)
    && (forall t :: 0 <= t < |s.modes| && s.modes[t] == NoLock ==> s.threads[t] == Idle)
    && (forall t :: 0 <= t < |s.modes| && (s.threads[t] == Dirty || s.threads[t] == SizeStored) ==>
          s.modes[t] == Exclusive)
  }

  /** A pool has one holder, and between its snapshots only the holder changes it. */
  ghost predicate PoolsOk(s: State) {
    && (forall t, u, p :: 0 <= t < |s.threads| && 0 <= u < |s.threads| && t != u && Holds(s.threads[t], p) ==>
          !Holds(s.threads[u], p))
    && (forall t :: 0 <= t < |s.threads| ==> PcOk(s.threads[t], s.pools))
  }

  ghost predicate PcOk(pc: Pc, pools: seq<Pool>) {
    match pc
    case Locked(p) => p < |pools|
    case Before(p, was) => p < |pools| && pools[p] == was
    case Changed(p, _, now) => p < |pools| && pools[p] == now
    case _ => true
  }

  ghost predicate Inv(s: State) {
    && LocksOk(s) && PoolsOk(s)
    && (!Stale(s) ==> SizeLaw(s)) && (!MemoryStale(s) ==> MemoryLaw(s))
  }

  ghost predicate Init(s: State) {
    && s.pools == [] && s.totalSize == 0 && s.totalMemory == 0 && |s.modes| == |s.threads|
    && (forall t :: 0 <= t < |s.threads| ==> s.threads[t] == Idle)
    && (forall t :: 0 <= t < |s.modes| ==> s.modes[t] == NoLock)
  }

  lemma InitInv(s: State)
    requires Init(s)
    ensures Inv(s)
  {
    SumZero(s.threads, OwedSize());
    SumZero(s.threads, OwedMemory());
    CongSame(0);
  }

  lemma LocksKept(s: State, t: nat, a: Action)
    requires LocksOk(s) && Enabled(s, t, a)
    ensures LocksOk(Apply(s, t, a))
  {
  }

  lemma HoldersKept(s: State, t: nat, a: Action)
    requires PoolsOk(s) && Enabled(s, t, a)
    ensures var r := Apply(s, t, a).threads;
            forall u, v, p :: 0 <= u < |r| && 0 <= v < |r| && u != v && Holds(r[u], p) ==> !Holds(r[v], p)
  {
  }

  /** The threads that do not move find their pools as they left them. */
  lemma OthersUndisturbed(s: State, t: nat, a: Action, u: nat)
    requires LocksOk(s) && PoolsOk(s) && Enabled(s, t, a) && u < |s.threads| && u != t
    ensures PcOk(s.threads[u], Apply(s, t, a).pools)
  {
    assert PcOk(s.threads[u], s.pools);
    if a.Restructure? {
      assert s.modes[u] == NoLock && s.threads[u] == Idle;
    } else if a.Operate? {
      assert Holds(s.threads[t], s.threads[t].p) && !Holds(s.threads[u], s.threads[t].p);
    }
  }

  lemma PoolsKept(s: State, t: nat, a: Action)
    requires LocksOk(s) && PoolsOk(s) && Enabled(s, t, a)
    ensures PoolsOk(Apply(s, t, a))
  {
    var r := Apply(s, t, a);
    HoldersKept(s, t, a);
    forall u | 0 <= u < |r.threads| ensures PcOk(r.threads[u], r.pools) {
      if u != t { OthersUndisturbed(s, t, a, u); } else { assert PcOk(s.threads[t], s.pools); }
    }
  }

  /** With an exclusive holder, nobody else owes anything. */
  lemma AloneOwesNothing(s: State, t: nat, f: Pc -> int)
    requires LocksOk(s) && t < |s.threads| && s.modes[t] == Exclusive && f(Idle) == 0 && f(s.threads[t]) == 0
    ensures SumBy(s.threads, f) == 0
  {
    forall u | 0 <= u < |s.threads| ensures f(s.threads[u]) == 0 {
      if u != t { assert s.modes[u] == NoLock; }
    }
    SumZero(s.threads, f);
  }

  /** A step that leaves the pools and the total alone must leave what is owed alone. */
  lemma OwesSame(total: int, threads: seq<Pc>, t: nat, pc: Pc, f: Pc -> int, sum: int)
    requires t < |threads| && Cong(total + SumBy(threads, f), sum) && f(pc) == f(threads[t])
    ensures Cong(total + SumBy(threads[t := pc], f), sum)
  {
    SumUpdate(threads, t, pc, f);
  }

  /** An operation owes what it changes. */
  lemma OwesChange(total: int, threads: seq<Pc>, t: nat, pc: Pc, f: Pc -> int,
                   pools: seq<Pool>, p: nat, now: Pool, g: Pool -> int)
    requires t < |threads| && p < |pools| && Cong(total + SumBy(threads, f), SumBy(pools, g))
    requires f(pc) - f(threads[t]) == g(now) - g(pools[p])
    ensures Cong(total + SumBy(threads[t := pc], f), SumBy(pools[p := now], g))
  {
    SumUpdate(threads, t, pc, f);
    SumUpdate(pools, p, now, g);
    var d := g(now) - g(pools[p]);
    CongSame(d);
    CongAdd(total + SumBy(threads, f), SumBy(pools, g), d, d);
  }

  /** Adding to the total pays what was owed. */
  lemma OwesPaid(total: int, threads: seq<Pc>, t: nat, pc: Pc, f: Pc -> int, d: int, sum: int)
    requires t < |threads| && Cong(total + SumBy(threads, f), sum) && f(pc) == f(threads[t]) - d
    ensures Cong(Wrapped(total, d) + SumBy(threads[t := pc], f), sum)
  {
    SumUpdate(threads, t, pc, f);
    var owed := SumBy(threads[t := pc], f);
    CongSame(owed);
    CongAdd(Wrapped(total, d), total + d, owed, owed);
    CongTrans(Wrapped(total, d) + owed, total + d + owed, sum);
  }

  lemma Recomputed(sum: int)
    ensures Cong(sum % U64 + 0, sum)
  {
    Multiple(-(sum / U64));
    assert sum % U64 - sum == U64 * -(sum / U64);
  }

  lemma QuietMove(s: State, t: nat, a: Action)
    requires PoolsOk(s) && Enabled(s, t, a) && !a.Operate? && !a.Restructure?
    ensures var r := Apply(s, t, a);
            && r.pools == s.pools && r.threads == s.threads[t := r.threads[t]]
            && (a != AddSize ==> OwedSize()(r.threads[t]) == OwedSize()(s.threads[t]))
            && (a != AddMemory ==> OwedMemory()(r.threads[t]) == OwedMemory()(s.threads[t]))
  {
    assert PcOk(s.threads[t], s.pools);
  }

  // ---- total_size_ ----

  lemma SizeOperate(s: State, t: nat, now: Pool)
    requires PoolsOk(s) && SizeLaw(s) && Enabled(s, t, Operate(now))
    ensures SizeLaw(Apply(s, t, Operate(now)))
  {
    var pc := s.threads[t];
    assert PcOk(pc, s.pools);
    OwesChange(s.totalSize, s.threads, t, Changed(pc.p, pc.was, now), OwedSize(), s.pools, pc.p, now, Sizes());
  }

  lemma SizeAdded(s: State, t: nat)
    requires SizeLaw(s) && Enabled(s, t, AddSize)
    ensures SizeLaw(Apply(s, t, AddSize))
  {
    var pc := s.threads[t];
    OwesPaid(s.totalSize, s.threads, t, DeltaMemory(pc.memory), OwedSize(), pc.size, SumBy(s.pools, Sizes()));
  }

  lemma SizeRecomputed(s: State, t: nat)
    requires LocksOk(s) && Enabled(s, t, StoreSize)
    ensures SizeLaw(Apply(s, t, StoreSize))
  {
    LocksKept(s, t, StoreSize);
    AloneOwesNothing(Apply(s, t, StoreSize), t, OwedSize());
    Recomputed(SumBy(s.pools, Sizes()));
  }

  /** Every other step neither changes a pool nor the total. */
  lemma SizeQuiet(s: State, t: nat, a: Action)
    requires PoolsOk(s) && SizeLaw(s) && Enabled(s, t, a)
    requires !a.Operate? && a != AddSize && a != StoreSize && !a.Restructure?
    ensures SizeLaw(Apply(s, t, a))
  {
    var r := Apply(s, t, a);
    assert PcOk(s.threads[t], s.pools);
    QuietMove(s, t, a);
    OwesSame(s.totalSize, s.threads, t, r.threads[t], OwedSize(), SumBy(s.pools, Sizes()));
  }

  lemma NotStaleBefore(s: State, t: nat, a: Action)
    requires Enabled(s, t, a) && !Stale(Apply(s, t, a)) && a != StoreSize
    ensures !Stale(s) && !a.Restructure?
  {
    var r := Apply(s, t, a);
    assert r.threads[t] != Dirty;
    forall u | 0 <= u < |s.threads| ensures s.threads[u] != Dirty { assert r.threads[u] != Dirty; }
  }

  lemma SizeKept(s: State, t: nat, a: Action)
    requires Inv(s) && Enabled(s, t, a)
    ensures !Stale(Apply(s, t, a)) ==> SizeLaw(Apply(s, t, a))
  {
    if a == StoreSize {
      SizeRecomputed(s, t);
    } else if !Stale(Apply(s, t, a)) {
      NotStaleBefore(s, t, a);
      match a {
        case Operate(now) => SizeOperate(s, t, now);
        case AddSize => SizeAdded(s, t);
        case _ => { SizeQuiet(s, t, a); }
      }
    }
  }

  // ---- total_memory_ ----

  lemma MemoryOperate(s: State, t: nat, now: Pool)
    requires PoolsOk(s) && MemoryLaw(s) && Enabled(s, t, Operate(now))
    ensures MemoryLaw(Apply(s, t, Operate(now)))
  {
    var pc := s.threads[t];
    assert PcOk(pc, s.pools);
    OwesChange(s.totalMemory, s.threads, t, Changed(pc.p, pc.was, now), OwedMemory(), s.pools, pc.p, now, Memories());
  }

  lemma MemoryAdded(s: State, t: nat)
    requires MemoryLaw(s) && Enabled(s, t, AddMemory)
    ensures MemoryLaw(Apply(s, t, AddMemory))
  {
    OwesPaid(s.totalMemory, s.threads, t, Idle, OwedMemory(), s.threads[t].memory, SumBy(s.pools, Memories()));
  }

  lemma MemoryRecomputed(s: State, t: nat)
    requires LocksOk(s) && Enabled(s, t, StoreMemory)
    ensures MemoryLaw(Apply(s, t, StoreMemory))
  {
    LocksKept(s, t, StoreMemory);
    AloneOwesNothing(Apply(s, t, StoreMemory), t, OwedMemory());
    Recomputed(SumBy(s.pools, Memories()));
  }

  lemma MemoryQuiet(s: State, t: nat, a: Action)
    requires PoolsOk(s) && MemoryLaw(s) && Enabled(s, t, a)
    requires !a.Operate? && a != AddMemory && a != StoreSize && a != StoreMemory && !a.Restructure?
    ensures MemoryLaw(Apply(s, t, a))
  {
    var r := Apply(s, t, a);
    assert PcOk(s.threads[t], s.pools);
    QuietMove(s, t, a);
    OwesSame(s.totalMemory, s.threads, t, r.threads[t], OwedMemory(), SumBy(s.pools, Memories()));
  }

  lemma NotMemoryStaleBefore(s: State, t: nat, a: Action)
    requires Enabled(s, t, a) && !MemoryStale(Apply(s, t, a)) && a != StoreMemory
    ensures !MemoryStale(s) && !a.Restructure? && a != StoreSize
  {
    var r := Apply(s, t, a);
    assert r.threads[t] != Dirty && r.threads[t] != SizeStored;
    forall u | 0 <= u < |s.threads| ensures s.threads[u] != Dirty && s.threads[u] != SizeStored {
      assert r.threads[u] != Dirty && r.threads[u] != SizeStored;
    }
  }

  lemma MemoryKept(s: State, t: nat, a: Action)
    requires Inv(s) && Enabled(s, t, a)
    ensures !MemoryStale(Apply(s, t, a)) ==> MemoryLaw(Apply(s, t, a))
  {
    if a == StoreMemory {
      MemoryRecomputed(s, t);
    } else if !MemoryStale(Apply(s, t, a)) {
      NotMemoryStaleBefore(s, t, a);
      match a {
        case Operate(now) => MemoryOperate(s, t, now);
        case AddMemory => MemoryAdded(s, t);
        case _ => { MemoryQuiet(s, t, a); }
      }
    }
  }

  /** Every step keeps the locks, the snapshots and both totals in order. */
  lemma StepKeeps(s: State, t: nat, a: Action)
    requires Inv(s) && Enabled(s, t, a)
    ensures Inv(Apply(s, t, a))
  {
    LocksKept(s, t, a);
    PoolsKept(s, t, a);
    SizeKept(s, t, a);
    MemoryKept(s, t, a);
  }

  // ------------------------------------------------------------------
  // Runs
  // ------------------------------------------------------------------

  type Step = (nat, Action)

  ghost predicate Executable(s0: State, steps: seq<Step>)
    decreases |steps|, 0
  {
    steps == [] ||
    var m := |steps| - 1;
    Executable(s0, steps[..m]) && Enabled(After(s0, steps[..m]), steps[m].0, steps[m].1)
  }

  ghost function After(s0: State, steps: seq<Step>): State
    requires Executable(s0, steps)
    decreases |steps|, 1
  {
    if steps == [] then s0 else
    var m := |steps| - 1;
    Apply(After(s0, steps[..m]), steps[m].0, steps[m].1)
  }

  lemma {:induction false} RunKeeps(s0: State, steps: seq<Step>)
    requires Init(s0) && Executable(s0, steps)
    ensures Inv(After(s0, steps))
  {
    if steps == [] {
      InitInv(s0);
    } else {
      var m := |steps| - 1;
      RunKeeps(s0, steps[..m]);
      StepKeeps(After(s0, steps[..m]), steps[m].0, steps[m].1);
    }
  }

  /** In every run, outside a recomputation, the totals and what threads owe add up to the pools. */
  lemma TotalsPlusOwed(s0: State, steps: seq<Step>)
    requires Init(s0) && Executable(s0, steps)
    ensures var s := After(s0, steps);
            (Stale(s) || SizeLaw(s)) && (MemoryStale(s) || MemoryLaw(s))
  {
    RunKeeps(s0, steps);
  }

  ghost predicate Settled(s: State) {
    forall t :: 0 <= t < |s.threads| ==> s.threads[t].Idle? || s.threads[t].Locked? || s.threads[t].Before?
  }

  ghost predicate InRange(s: State) { 0 <= s.totalSize < U64 && 0 <= s.totalMemory < U64 }

  lemma {:induction false} RunInRange(s0: State, steps: seq<Step>)
    requires Init(s0) && Executable(s0, steps)
    ensures InRange(After(s0, steps))
  {
    if steps != [] { RunInRange(s0, steps[..|steps| - 1]); }
  }

  lemma SettledSize(s: State)
    requires SizeLaw(s) && InRange(s) && Settled(s)
    ensures s.totalSize == SumBy(s.pools, Sizes()) % U64
  {
    SumZero(s.threads, OwedSize());
    CongSame(s.totalSize);
    CongMod(s.totalSize, s.totalSize, SumBy(s.pools, Sizes()));
  }

  lemma SettledMemory(s: State)
    requires MemoryLaw(s) && InRange(s) && Settled(s)
    ensures s.totalMemory == SumBy(s.pools, Memories()) % U64
  {
    SumZero(s.threads, OwedMemory());
    CongSame(s.totalMemory);
    CongMod(s.totalMemory, s.totalMemory, SumBy(s.pools, Memories()));
  }

  /** When no change is in flight the totals are exact. */
  lemma ExactWhenSettled(s0: State, steps: seq<Step>)
    requires Init(s0) && Executable(s0, steps) && Settled(After(s0, steps))
    ensures var s := After(s0, steps);
            s.totalSize == SumBy(s.pools, Sizes()) % U64 && s.totalMemory == SumBy(s.pools, Memories()) % U64
  {
    RunKeeps(s0, steps);
    RunInRange(s0, steps);
    SettledSize(After(s0, steps));
    SettledMemory(After(s0, steps));
  }

  /** An exclusive holder that is not itself at work finds, or leaves, exact totals. */
  lemma ExactUnderExclusiveLock(s0: State, steps: seq<Step>, t: nat)
    requires Init(s0) && Executable(s0, steps)
    requires var s := After(s0, steps);
             t < |s.threads| && t < |s.modes| && s.modes[t] == Exclusive && s.threads[t] == Idle
    ensures var s := After(s0, steps);
            s.totalSize == SumBy(s.pools, Sizes()) % U64 && s.totalMemory == SumBy(s.pools, Memories()) % U64
  {
    var s := After(s0, steps);
    RunKeeps(s0, steps);
    forall u | 0 <= u < |s.threads| ensures s.threads[u].Idle? {
      if u != t { assert s.modes[u] == NoLock; }
    }
    ExactWhenSettled(s0, steps);
  }

  // ------------------------------------------------------------------
  // What the pools are
  // ------------------------------------------------------------------

  /** The pools as the operations left them, and the pool each thread locked last. */
  datatype Book = Book(pools: seq<Pool>, held: seq<nat>)

  ghost function Booked(s0: State, steps: seq<Step>): (r: Book)
    ensures |r.held| == |s0.threads|
  {
    if steps == [] then Book(s0.pools, seq(|s0.threads|, _ => 0)) else
    var m := |steps| - 1;
    var b, t := Booked(s0, steps[..m]), steps[m].0;
    if t >= |b.held| then b else
    match steps[m].1
    case LockPool(p) => b.(held := b.held[t := p])
    case Operate(now) => if b.held[t] < |b.pools| then b.(pools := b.pools[b.held[t] := now]) else b
    case Restructure(pools) => b.(pools := pools)
    case _ => b
  }

  ghost predicate Holding(pc: Pc, p: nat) { pc.Locked? || pc.Before? || pc.Changed? ==> pc.p == p }

  /** In every run each pool is what the last operation on it, or the last restructuring, made it. */
  lemma {:induction false} PoolsAreBooked(s0: State, steps: seq<Step>)
    requires Init(s0) && Executable(s0, steps)
    ensures var s, b := After(s0, steps), Booked(s0, steps);
            && s.pools == b.pools && |s.threads| == |s0.threads|
            && forall t :: 0 <= t < |s.threads| ==> Holding(s.threads[t], b.held[t])
  {
    if steps != [] {
      var m := |steps| - 1;
      PoolsAreBooked(s0, steps[..m]);
      assert Holding(After(s0, steps[..m]).threads[steps[m].0], Booked(s0, steps[..m]).held[steps[m].0]);
    }
  }

  /** With no change in flight the totals are the sums over the pools the operations made. */
  lemma SettledTotals(s0: State, steps: seq<Step>)
    requires Init(s0) && Executable(s0, steps) && Settled(After(s0, steps))
    ensures After(s0, steps).totalSize == SumBy(Booked(s0, steps).pools, Sizes()) % U64
    ensures After(s0, steps).totalMemory == SumBy(Booked(s0, steps).pools, Memories()) % U64
  {
    ExactWhenSettled(s0, steps);
    PoolsAreBooked(s0, steps);
  }
}
