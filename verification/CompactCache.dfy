/**
 The compact cache: a hash map from keys to slots, an LRU list threaded through
 the slots, and a pool of slots handed out in blocks. Slots are numbered; the list
 and the free list are sequences of slot numbers. Every operation is proved to keep
 the three structures in agreement and to do to the list of entries exactly what
 module LruSpec says.
 */
module CompactCache {
  import opened Basics
  import opened LruEffects
  import opened LruSpec
  import opened Seqs

  const SLOTS_PER_BLOCK: nat := 4096

  datatype Slot<K, V> = Vacant | Occupied(entry: Entry<K, V>)

  datatype Store<K, V> = Store(slots: seq<Slot<K, V>>, index: map<K, nat>, lru: seq<nat>, free: seq<nat>)

  // ------------------------------------------------------------------
  // Agreement of map, list and pool
  // ------------------------------------------------------------------

  /** Every linked slot is occupied, and the map leads back to it. */
  ghost predicate Linked<K, V>(st: Store<K, V>) {
    forall i :: 0 <= i < |st.lru| ==>
      && st.lru[i] < |st.slots| && st.slots[st.lru[i]].Occupied?
      && st.slots[st.lru[i]].entry.key in st.index && st.index[st.slots[st.lru[i]].entry.key] == st.lru[i]
  }

  /** Every mapped key has its own occupied slot. */
  ghost predicate Mapped<K, V>(st: Store<K, V>) {
    forall k :: k in st.index ==>
      st.index[k] < |st.slots| && st.slots[st.index[k]].Occupied? && st.slots[st.index[k]].entry.key == k
  }

  /** Linked and free slots are all the slots, and free ones are vacant. */
  ghost predicate Pooled<K, V>(st: Store<K, V>) {
    && Distinct(st.lru) && Distinct(st.free)
    && (forall i :: 0 <= i < |st.free| ==> st.free[i] < |st.slots| && st.slots[st.free[i]].Vacant?)
    && (forall id :: 0 <= id < |st.slots| ==> id in st.lru || id in st.free)
  }

  ghost predicate Coherent<K, V>(st: Store<K, V>) {
    Linked(st) && Mapped(st) && Pooled(st) && |st.index| == |st.lru| && |st.lru| + |st.free| == |st.slots|
  }

  /** The entries, head of the list first. */
  ghost function Contents<K, V>(st: Store<K, V>): (es: seq<Entry<K, V>>)
    requires Linked(st)
    ensures |es| == |st.lru| && forall i :: 0 <= i < |es| ==> es[i] == st.slots[st.lru[i]].entry
  {
    seq(|st.lru|, i requires 0 <= i < |st.lru| => st.slots[st.lru[i]].entry)
  }

  lemma ContentsUnique<K, V>(st: Store<K, V>)
    requires Linked(st) && Pooled(st)
    ensures UniqueKeys(Contents(st))
  {
  }

  function PositionOf(s: seq<nat>, x: nat): (r: nat)
    requires x in s
    ensures r < |s| && s[r] == x
  {
    if s[|s| - 1] == x then |s| - 1 else PositionOf(s[..|s| - 1], x)
  }

  lemma MappedLinked<K, V>(st: Store<K, V>, k: K)
    requires Mapped(st) && Pooled(st) && k in st.index
    ensures st.index[k] in st.lru
  {
    var id := st.index[k];
    assert id in st.lru || id in st.free;
  }

  /** The map finds exactly the keys on the list, at the slot the list has them. */
  lemma MapFinds<K, V>(st: Store<K, V>, k: K)
    requires Coherent(st)
    ensures k in st.index <==> Has(Contents(st), k)
    ensures k in st.index ==> st.index[k] in st.lru && PositionOf(st.lru, st.index[k]) == Find(Contents(st), k)
  {
    ContentsUnique(st);
    var es := Contents(st);
    if k in st.index {
      MappedLinked(st, k);
      var p := PositionOf(st.lru, st.index[k]);
      assert es[p].key == k;
      FindUnique(es, p);
    }
  }

  // ------------------------------------------------------------------
  // Taking an entry out
  // ------------------------------------------------------------------

  function Erased<K, V>(st: Store<K, V>, p: nat): Store<K, V>
    requires p < |st.lru| && st.lru[p] < |st.slots| && st.slots[st.lru[p]].Occupied?
  {
    var id := st.lru[p];
    Store(st.slots[id := Vacant], st.index - {st.slots[id].entry.key}, Removed(st.lru, p), st.free + [id])
  }

  lemma ErasedIds<K, V>(st: Store<K, V>, p: nat)
    requires Coherent(st) && p < |st.lru|
    ensures forall i :: 0 <= i < |st.lru| - 1 ==>
              var q := if i < p then i else i + 1;
              Erased(st, p).lru[i] == st.lru[q] && st.lru[q] != st.lru[p]
  {
  }

  lemma ErasedLinked<K, V>(st: Store<K, V>, p: nat)
    requires Coherent(st) && p < |st.lru|
    ensures Linked(Erased(st, p))
  {
    ErasedIds(st, p);
  }

  lemma ErasedContents<K, V>(st: Store<K, V>, p: nat)
    requires Coherent(st) && p < |st.lru| && Linked(Erased(st, p))
    ensures Contents(Erased(st, p)) == Removed(Contents(st), p)
  {
    ErasedIds(st, p);
  }

  lemma StillIn(s: seq<nat>, p: nat, x: nat)
    requires p < |s| && x in s && x != s[p]
    ensures x in Removed(s, p)
  {
    var q := PositionOf(s, x);
    assert Removed(s, p)[if q < p then q else q - 1] == x;
  }

  lemma OneKeyFewer<K, V>(m: map<K, V>, k: K)
    requires k in m
    ensures |m - {k}| == |m| - 1
  {
    assert (m - {k}).Keys == m.Keys - {k};
  }

  lemma ErasedMapped<K, V>(st: Store<K, V>, p: nat)
    requires Coherent(st) && p < |st.lru|
    ensures Mapped(Erased(st, p))
  {
  }

  lemma ErasedCovers<K, V>(st: Store<K, V>, p: nat, x: nat)
    requires Coherent(st) && p < |st.lru| && x < |st.slots|
    ensures x in Removed(st.lru, p) || x in st.free + [st.lru[p]]
  {
    if x in st.lru && x != st.lru[p] { StillIn(st.lru, p, x); }
  }

  lemma ErasedPooled<K, V>(st: Store<K, V>, p: nat)
    requires Coherent(st) && p < |st.lru|
    ensures Pooled(Erased(st, p))
  {
    var after := Erased(st, p);
    forall x | 0 <= x < |after.slots| ensures x in after.lru || x in after.free { ErasedCovers(st, p, x); }
  }

  lemma ErasedCoherent<K, V>(st: Store<K, V>, p: nat)
    requires Coherent(st) && p < |st.lru|
    ensures Coherent(Erased(st, p)) && Contents(Erased(st, p)) == Removed(Contents(st), p)
  {
    ErasedLinked(st, p);
    ErasedContents(st, p);
    ErasedMapped(st, p);
    ErasedPooled(st, p);
    OneKeyFewer(st.index, st.slots[st.lru[p]].entry.key);
  }

  /** List and pool on their own, while flush() has not yet cleared the map. */
  ghost predicate Emptying<K, V>(st: Store<K, V>) {
    && Pooled(st) && |st.lru| + |st.free| == |st.slots|
    && forall i :: 0 <= i < |st.lru| ==> st.lru[i] < |st.slots| && st.slots[st.lru[i]].Occupied?
  }

  function TailFreed<K, V>(st: Store<K, V>): Store<K, V>
    requires st.lru != [] && st.lru[|st.lru| - 1] < |st.slots|
  {
    var m := |st.lru| - 1;
    st.(slots := st.slots[st.lru[m] := Vacant], lru := st.lru[..m], free := st.free + [st.lru[m]])
  }

  lemma TailFreedEmptying<K, V>(st: Store<K, V>)
    requires Emptying(st) && st.lru != []
    ensures Emptying(TailFreed(st))
  {
    var after, m := TailFreed(st), |st.lru| - 1;
    var id := st.lru[m];
    forall x | 0 <= x < |after.slots| ensures x in after.lru || x in after.free {
      if x in st.lru && x != id { StillIn(st.lru, m, x); }
      assert after.lru == Removed(st.lru, m);
    }
  }

  // ------------------------------------------------------------------
  // Changing an entry, and moving it to the head
  // ------------------------------------------------------------------

  function Rewritten<K, V>(st: Store<K, V>, p: nat, e: Entry<K, V>): Store<K, V>
    requires p < |st.lru| && st.lru[p] < |st.slots|
  {
    st.(slots := st.slots[st.lru[p] := Occupied(e)])
  }

  lemma RewrittenCoherent<K, V>(st: Store<K, V>, p: nat, e: Entry<K, V>)
    requires Coherent(st) && p < |st.lru| && e.key == st.slots[st.lru[p]].entry.key
    ensures Coherent(Rewritten(st, p, e)) && Contents(Rewritten(st, p, e)) == Contents(st)[p := e]
  {
  }

  function Headed<K, V>(st: Store<K, V>, p: nat): Store<K, V>
    requires p < |st.lru|
  {
    st.(lru := [st.lru[p]] + Removed(st.lru, p))
  }

  lemma HeadedIndex(s: seq<nat>, p: nat, x: nat)
    requires p < |s| && x in s
    ensures x in [s[p]] + Removed(s, p)
  {
    var q := PositionOf(s, x);
    if q != p { assert Removed(s, p)[if q < p then q else q - 1] == x; }
  }

  lemma HeadedLinked<K, V>(st: Store<K, V>, p: nat)
    requires Coherent(st) && p < |st.lru|
    ensures Linked(Headed(st, p))
  {
  }

  lemma HeadedContents<K, V>(st: Store<K, V>, p: nat)
    requires Coherent(st) && p < |st.lru| && Linked(Headed(st, p))
    ensures Contents(Headed(st, p)) == [Contents(st)[p]] + Removed(Contents(st), p)
  {
  }

  lemma HeadedDistinct(s: seq<nat>, p: nat)
    requires Distinct(s) && p < |s|
    ensures Distinct([s[p]] + Removed(s, p))
  {
  }

  lemma HeadedCoherent<K, V>(st: Store<K, V>, p: nat)
    requires Coherent(st) && p < |st.lru|
    ensures Coherent(Headed(st, p)) && Contents(Headed(st, p)) == [Contents(st)[p]] + Removed(Contents(st), p)
  {
    HeadedLinked(st, p);
    HeadedContents(st, p);
    HeadedDistinct(st.lru, p);
    forall x | x in st.lru ensures x in Headed(st, p).lru { HeadedIndex(st.lru, p, x); }
  }

  lemma RemovedUpdated<T>(s: seq<T>, i: nat, x: T)
    requires i < |s|
    ensures Removed(s[i := x], i) == Removed(s, i)
  {
  }

  lemma PromotedCoherent<K, V>(st: Store<K, V>, p: nat, e: Entry<K, V>)
    requires Coherent(st) && p < |st.lru| && e.key == st.slots[st.lru[p]].entry.key
    ensures var after := Headed(Rewritten(st, p, e), p);
            Coherent(after) && Contents(after) == [e] + Removed(Contents(st), p)
  {
    RewrittenCoherent(st, p, e);
    HeadedCoherent(Rewritten(st, p, e), p);
    RemovedUpdated(Contents(st), p, e);
  }

  // ------------------------------------------------------------------
  // Putting an entry in
  // ------------------------------------------------------------------

  /** The pool after making sure that a slot is free. */
  function Grown<K, V>(st: Store<K, V>): Store<K, V> {
    st.(slots := st.slots + seq(SLOTS_PER_BLOCK, _ => Vacant),
        free := st.free + seq(SLOTS_PER_BLOCK, i => |st.slots| + i))
  }

  function Supplied<K, V>(st: Store<K, V>): (r: Store<K, V>)
    ensures r.free != []
  {
    if st.free == [] then Grown(st) else st
  }

  lemma GrownCoherent<K, V>(st: Store<K, V>)
    requires Coherent(st)
    ensures Coherent(Grown(st)) && Contents(Grown(st)) == Contents(st)
  {
    var after := Grown(st);
    forall x | 0 <= x < |after.slots| ensures x in after.lru || x in after.free {
      if x >= |st.slots| {
        assert after.free[|st.free| + (x - |st.slots|)] == x;
      } else if x !in st.lru {
        assert after.free[PositionOf(st.free, x)] == x;
      }
    }
  }

  lemma SuppliedCoherent<K, V>(st: Store<K, V>)
    requires Coherent(st)
    ensures Coherent(Supplied(st)) && Contents(Supplied(st)) == Contents(st)
  {
    if st.free == [] { GrownCoherent(st); }
  }

  function Inserted<K, V>(st: Store<K, V>, e: Entry<K, V>): Store<K, V>
    requires st.free != [] && st.free[|st.free| - 1] < |st.slots|
  {
    var id := st.free[|st.free| - 1];
    Store(st.slots[id := Occupied(e)], st.index[e.key := id], [id] + st.lru, st.free[..|st.free| - 1])
  }

  lemma FreeNotLinked<K, V>(st: Store<K, V>, id: nat)
    requires Coherent(st) && id in st.free
    ensures id !in st.lru && id < |st.slots| && forall k :: k in st.index ==> st.index[k] != id
  {
  }

  lemma InsertedIds<K, V>(st: Store<K, V>, e: Entry<K, V>)
    requires Coherent(st) && st.free != []
    ensures var after := Inserted(st, e);
            forall i :: 0 < i < |after.lru| ==> after.lru[i] == st.lru[i - 1] && after.lru[i] != after.lru[0]
  {
    FreeNotLinked(st, st.free[|st.free| - 1]);
  }

  lemma InsertedLinked<K, V>(st: Store<K, V>, e: Entry<K, V>)
    requires Coherent(st) && st.free != [] && e.key !in st.index
    ensures Linked(Inserted(st, e)) && Contents(Inserted(st, e)) == [e] + Contents(st)
  {
    InsertedIds(st, e);
  }

  lemma InsertedMapped<K, V>(st: Store<K, V>, e: Entry<K, V>)
    requires Coherent(st) && st.free != [] && e.key !in st.index
    ensures Mapped(Inserted(st, e)) && |Inserted(st, e).index| == |st.index| + 1
  {
    FreeNotLinked(st, st.free[|st.free| - 1]);
  }

  lemma InsertedPooled<K, V>(st: Store<K, V>, e: Entry<K, V>)
    requires Coherent(st) && st.free != []
    ensures Pooled(Inserted(st, e))
  {
    var after, id := Inserted(st, e), st.free[|st.free| - 1];
    FreeNotLinked(st, id);
    forall x | 0 <= x < |after.slots| ensures x in after.lru || x in after.free {
      if x == id {
        assert after.lru[0] == x;
      } else if x in st.lru {
        assert after.lru[PositionOf(st.lru, x) + 1] == x;
      } else {
        assert after.free[PositionOf(st.free, x)] == x;
      }
    }
  }

  lemma InsertedCoherent<K, V>(st: Store<K, V>, e: Entry<K, V>)
    requires Coherent(st) && st.free != [] && e.key !in st.index
    ensures Coherent(Inserted(st, e)) && Contents(Inserted(st, e)) == [e] + Contents(st)
  {
    InsertedLinked(st, e);
    InsertedMapped(st, e);
    InsertedPooled(st, e);
  }

  // ------------------------------------------------------------------
  // The cache
  // ------------------------------------------------------------------

  /** Both outcomes of building an entry: the slot goes back to the pool, or it is linked. */
  lemma NewEntry<K, V>(st: Store<K, V>, e: Entry<K, V>)
    requires Coherent(st) && e.key !in st.index
    ensures var r := Supplied(st);
            && Coherent(r) && Contents(r) == Contents(st)
            && Coherent(Inserted(r, e)) && Contents(Inserted(r, e)) == [e] + Contents(st)
            && var id := r.free[|r.free| - 1];
               Store(r.slots[id := Vacant], r.index, r.lru, r.free[..|r.free| - 1] + [id]) == r
  {
    SuppliedCoherent(st);
    InsertedCoherent(Supplied(st), e);
  }

  lemma PositionUnique(s: seq<nat>, p: nat)
    requires Distinct(s) && p < |s|
    ensures PositionOf(s, s[p]) == p
  {
  }

  lemma OneFewer(n: nat, size: nat)
    requires n > 0
    ensures n * size - size == (n - 1) * size >= 0
  {
  }

  /** Which of the steps that can throw while an entry is built does throw. */
  datatype Fault = NoFault | KeyThrows | ValueThrows | MapThrows

  class Cache<K(==), V> {
    const cfg: Config
    var maxSize: Limit

    var slots: seq<Slot<K, V>>
    var index: map<K, nat>
    var lru: seq<nat>
    var free: seq<nat>
    var usedSlots: nat
    var currentMemory: nat

    // How many Key and Value objects have been constructed and not yet destroyed.
    ghost var liveKeys: int
    ghost var liveValues: int

    ghost function S(): Store<K, V>
      reads this
    {
      Store(slots, index, lru, free)
    }

    /** Map, list and pool agree, the counters are exact, and just the entries' objects are alive. */
    ghost predicate Consistent()
      reads this
    {
      && Coherent(S())
      && usedSlots == |lru| && currentMemory == |lru| * cfg.slotSize
      && |slots| % SLOTS_PER_BLOCK == 0
      && liveKeys == liveValues == |lru|
    }

    ghost function Abs(): State<K, V>
      requires Consistent()
      reads this
    {
      State(maxSize, Contents(S()))
    }

    /** Consistent, and within the size and memory limits. */
    ghost predicate Valid()
      reads this
    {
      Consistent() && Bounded(cfg, Abs())
    }

    /** The keys in the cache are different, so an operation has its effect. */
    lemma Effect(op: Op<K, V>, now: Time)
      requires Consistent()
      ensures Does(cfg, Abs(), op, now, Apply(cfg, Abs(), op, now))
    {
      ContentsUnique(S());
      ApplyDoes(cfg, Abs(), op, now);
    }

    constructor (cfg: Config, maxSize: Limit)
      ensures Valid() && this.cfg == cfg && Abs() == State(maxSize, [])
      ensures |slots| == if maxSize == AtMost(0) then 0 else SLOTS_PER_BLOCK
    {
      this.cfg, this.maxSize := cfg, maxSize;
      slots, index, lru, free := [], map[], [], [];
      usedSlots, currentMemory := 0, 0;
      liveKeys, liveValues := 0, 0;
      new;
      if maxSize != AtMost(0) { AllocateBlock(); }
    }

    method AllocateBlock()
      requires Consistent()
      modifies this
      ensures S() == Grown(old(S())) && Consistent() && Abs() == old(Abs())
      ensures usedSlots == old(usedSlots) && maxSize == old(maxSize)
    {
      GrownCoherent(S());
      var base := |slots|;
      slots := slots + seq(SLOTS_PER_BLOCK, _ => Vacant);
      free := free + seq(SLOTS_PER_BLOCK, i => base + i);
    }

    /** Takes a slot out of the pool; it is neither linked nor free until the caller links or returns it. */
    method Allocate() returns (id: nat)
      requires Consistent()
      modifies this
      ensures var st := Supplied(old(S()));
              S() == st.(free := st.free[..|st.free| - 1]) && id == st.free[|st.free| - 1]
      ensures usedSlots == old(usedSlots) + 1 && maxSize == old(maxSize) && currentMemory == old(currentMemory)
      ensures |slots| % SLOTS_PER_BLOCK == 0
      ensures liveKeys == old(liveKeys) && liveValues == old(liveValues)
    {
      if free == [] { AllocateBlock(); }
      id := free[|free| - 1];
      free := free[..|free| - 1];
      usedSlots := usedSlots + 1;
    }

    /** Returns a slot to the pool, destroying its key and value if it is occupied. */
    method Deallocate(id: nat)
      requires id < |slots| && usedSlots > 0
      modifies this
      ensures S() == old(S()).(slots := old(slots)[id := Vacant], free := old(free) + [id])
      ensures usedSlots == old(usedSlots) - 1 && maxSize == old(maxSize) && currentMemory == old(currentMemory)
      ensures var n := if old(slots)[id].Occupied? then 1 else 0;
              liveKeys == old(liveKeys) - n && liveValues == old(liveValues) - n
    {
      if slots[id].Occupied? { liveKeys, liveValues := liveKeys - 1, liveValues - 1; }
      slots := slots[id := Vacant];
      free := free + [id];
      usedSlots := usedSlots - 1;
    }

    /** erase_slot(): takes the entry of `k` out of all three structures. */
    method EraseSlot(k: K)
      requires Consistent() && k in index
      modifies this
      ensures Consistent()
      ensures var es := old(Abs()).entries;
              Has(es, k) && Abs() == old(Abs()).(entries := Removed(es, Find(es, k)))
    {
      var id := index[k];
      ghost var before := S();
      MapFinds(before, k);
      ErasedCoherent(before, PositionOf(lru, id));
      OneFewer(|lru|, cfg.slotSize);
      currentMemory := currentMemory - cfg.slotSize;
      lru := Removed(lru, PositionOf(lru, id));
      index := index - {k};
      Deallocate(id);
      assert S() == Erased(before, PositionOf(before.lru, id));
    }

    /** evict_lru(): drops the last entry of the list, if there is one. */
    method EvictLru()
      requires Consistent()
      modifies this
      ensures Consistent()
      ensures var es := old(Abs()).entries;
              Abs() == old(Abs()).(entries := if es == [] then [] else es[..|es| - 1])
    {
      if lru == [] { return; }
      var last := |lru| - 1;
      ghost var es := Contents(S());
      ContentsUnique(S());
      FindUnique(es, last);
      EraseSlot(slots[lru[last]].entry.key);
      assert Removed(es, last) == es[..last];
    }

    /** Moves a slot to the head of the list with a fresh stamp. */
    method Promote(id: nat, now: Time, ghost p: nat)
      requires Consistent() && p < |lru| && lru[p] == id
      modifies this
      ensures Consistent()
      ensures var es := old(Abs()).entries;
              Abs() == old(Abs()).(entries := [es[p].(stamp := now, accessed := true)] + Removed(es, p))
    {
      ghost var before := S();
      var promoted := slots[id].entry.(stamp := now, accessed := true);
      PromotedCoherent(before, p, promoted);
      PositionUnique(lru, p);
      slots := slots[id := Occupied(promoted)];
      lru := [id] + Removed(lru, PositionOf(lru, id));
      assert S() == Headed(Rewritten(before, p, promoted), p);
    }

    /** record_access(): promotes the slot if its refresh time has passed. */
    method RecordAccess(id: nat, now: Time, ghost p: nat)
      requires Consistent() && p < |lru| && lru[p] == id
      modifies this
      ensures Consistent()
      ensures Abs() == old(Abs()).(entries := Touched(old(Abs()).entries, p, now, cfg.refresh))
    {
      if now < (slots[id].entry.stamp + cfg.refresh) % U32 { return; }
      Promote(id, now, p);
    }

    /** Evicts until a new entry fits the size limit. */
    method MakeRoomBySize()
      requires Consistent() && maxSize != AtMost(0)
      modifies this
      ensures Consistent()
      ensures Abs() == old(Abs()).(entries := KeepSize(old(Abs()).entries, old(maxSize)))
    {
      ghost var es := Abs().entries;
      while maxSize.AtMost? && |index| >= maxSize.n
        invariant Consistent() && maxSize == old(maxSize) && |index| <= |es| && Abs().entries == es[..|index|]
        invariant |index| < |es| ==> maxSize.AtMost? && |index| >= maxSize.n - 1
        decreases |index|
      {
        ghost var n := |index|;
        EvictLru();
        assert es[..n][..n - 1] == es[..n - 1];
      }
      assert es[..|es|] == es;
    }

    /** Evicts while the memory in use is above its limit. */
    method MakeRoomByMemory()
      requires Consistent()
      modifies this
      ensures Consistent()
      ensures Abs() == old(Abs()).(entries := KeepMemory(old(Abs()).entries, cfg.slotSize, cfg.maxMemory))
    {
      while cfg.maxMemory.AtMost? && currentMemory > cfg.maxMemory.n && index != map[]
        invariant Consistent() && maxSize == old(maxSize)
        invariant KeepMemory(Abs().entries, cfg.slotSize, cfg.maxMemory)
               == KeepMemory(old(Abs()).entries, cfg.slotSize, cfg.maxMemory)
        decreases |index|
      {
        EvictLru();
      }
    }

    /** The slot as it was taken from the pool, and what building an entry in it leads to. */
    ghost predicate Taken(id: nat, e: Entry<K, V>, supplied: Store<K, V>)
      reads this
    {
      && Coherent(supplied) && supplied.free != [] && e.key !in supplied.index && usedSlots > 0
      && S() == supplied.(free := supplied.free[..|supplied.free| - 1]) && id == supplied.free[|supplied.free| - 1]
    }

    /**
     Constructs the key, then the value, then the map entry in a slot just taken from the
     pool. When one of them throws, those that are finished are undone and the slot goes back.
     */
    method Build(id: nat, e: Entry<K, V>, fault: Fault, ghost supplied: Store<K, V>)
      requires Taken(id, e, supplied)
      modifies this
      ensures S() == if fault == NoFault then Inserted(supplied, e) else supplied
      ensures var n := if fault == NoFault then 1 else 0;
              && liveKeys == old(liveKeys) + n && liveValues == old(liveValues) + n
              && usedSlots == old(usedSlots) - 1 + n
      ensures currentMemory == old(currentMemory) + if fault == NoFault then cfg.slotSize else 0
      ensures maxSize == old(maxSize)
    {
      assert slots == supplied.slots && slots[id := Vacant] == slots && free + [id] == supplied.free;
      if fault == KeyThrows {
        Deallocate(id);
        return;
      }
      liveKeys := liveKeys + 1;
      if fault == ValueThrows {
        liveKeys := liveKeys - 1;
        Deallocate(id);
        return;
      }
      liveValues := liveValues + 1;
      slots := slots[id := Occupied(e)];
      if fault == MapThrows {
        slots := slots[id := Vacant];
        liveKeys, liveValues := liveKeys - 1, liveValues - 1;
        Deallocate(id);
        return;
      }
      index := index[e.key := id];
      lru := [id] + lru;
      currentMemory := currentMemory + cfg.slotSize;
    }

    /** Builds a new entry in a slot of the pool; a step that throws is undone. */
    method StoreNew(k: K, v: V, now: Time, fault: Fault)
      requires Consistent() && k !in index
      modifies this
      ensures Consistent()
      ensures var es := old(Abs()).entries;
              Abs() == old(Abs()).(entries := if fault == NoFault then [Entry(k, v, now, false)] + es else es)
    {
      ghost var supplied := Supplied(S());
      var e := Entry(k, v, now, false);
      NewEntry(S(), e);
      OneFewer(|lru| + 1, cfg.slotSize);
      var id := Allocate();
      Build(id, e, fault, supplied);
    }

    /** set() on a key that is present. */
    method Overwrite(k: K, v: V, now: Time)
      requires Consistent() && k in index
      modifies this
      ensures Consistent()
      ensures var es := old(Abs()).entries;
              var i := Find(es, k);
              i >= 0 && Abs() == old(Abs()).(entries := Touched(es[i := es[i].(value := v)], i, now, cfg.refresh))
    {
      var id := index[k];
      MapFinds(S(), k);
      ghost var p := PositionOf(lru, id);
      RewrittenCoherent(S(), p, slots[id].entry.(value := v));
      slots := slots[id := Occupied(slots[id].entry.(value := v))];
      RecordAccess(id, now, p);
    }

    /** set() on a key that is absent. */
    method InsertEvicting(k: K, v: V, now: Time, fault: Fault)
      requires Consistent() && k !in index && maxSize != AtMost(0)
      modifies this
      ensures Consistent()
      ensures var room := Room(cfg, old(Abs()));
              Abs() == old(Abs()).(entries := if fault == NoFault then [Entry(k, v, now, false)] + room else room)
    {
      MapFinds(S(), k);
      MakeRoomBySize();
      MakeRoomByMemory();
      MapFinds(S(), k);
      assert !Has(Abs().entries, k);
      StoreNew(k, v, now, fault);
    }

    /** set(). */
    method Set(k: K, v: V, now: Time, fault: Fault) returns (threw: bool)
      requires Valid()
      modifies this
      ensures Valid() && Abs() == Apply(cfg, old(Abs()), SetOp(k, v, fault != NoFault), now)
      ensures Does(cfg, old(Abs()), SetOp(k, v, fault != NoFault), now, Abs())
      ensures threw <==> fault != NoFault && !Has(old(Abs()).entries, k) && old(maxSize) != AtMost(0)
    {
      MapFinds(S(), k);
      StoredBounded(cfg, Abs(), k, v, now, fault != NoFault);
      Effect(SetOp(k, v, fault != NoFault), now);
      threw := false;
      if k in index {
        Overwrite(k, v, now);
      } else if maxSize != AtMost(0) {
        InsertEvicting(k, v, now, fault);
        threw := fault != NoFault;
      }
    }

    /** add(): like set(), but leaves a key that is present alone. A success is stored unless the size limit is zero. */
    method Add(k: K, v: V, now: Time, fault: Fault) returns (added: bool, threw: bool)
      requires Valid()
      modifies this
      ensures Valid() && Abs() == Apply(cfg, old(Abs()), AddOp(k, v, fault != NoFault), now)
      ensures Does(cfg, old(Abs()), AddOp(k, v, fault != NoFault), now, Abs())
      ensures threw <==> fault != NoFault && !Has(old(Abs()).entries, k) && old(maxSize) != AtMost(0)
      ensures added <==> !Has(old(Abs()).entries, k) && !threw
      ensures added ==> (Has(Abs().entries, k) <==> old(maxSize) != AtMost(0))
    {
      MapFinds(S(), k);
      Effect(AddOp(k, v, fault != NoFault), now);
      if k in index { return false, false; }
      threw := Set(k, v, now, fault);
      added := !threw;
      AddedIsStored(cfg, old(Abs()), k, v, now);
    }

    /** get(): the value last stored under the key, promoting its entry. */
    method Get(k: K, now: Time) returns (r: Option<V>)
      requires Valid()
      modifies this
      ensures Valid() && Abs() == Apply(cfg, old(Abs()), GetOp(k), now) && Does(cfg, old(Abs()), GetOp(k), now, Abs())
      ensures var es := old(Abs()).entries; r == if Has(es, k) then Some(es[Find(es, k)].value) else None
    {
      MapFinds(S(), k);
      StepBounded(cfg, Abs(), GetOp(k), now);
      Effect(GetOp(k), now);
      if k !in index { return None; }
      var id := index[k];
      r := Some(slots[id].entry.value);
      RecordAccess(id, now, PositionOf(lru, id));
    }

    /** peek(): the same value, changing nothing. */
    method Peek(k: K) returns (r: Option<V>)
      requires Valid()
      ensures var es := Abs().entries; r == if Has(es, k) then Some(es[Find(es, k)].value) else None
    {
      MapFinds(S(), k);
      if k !in index { return None; }
      r := Some(slots[index[k]].entry.value);
    }

    /** del(). */
    method Del(k: K, now: Time) returns (deleted: bool)
      requires Valid()
      modifies this
      ensures Valid() && Abs() == Apply(cfg, old(Abs()), DelOp(k), now) && Does(cfg, old(Abs()), DelOp(k), now, Abs())
      ensures deleted <==> Has(old(Abs()).entries, k)
      ensures !Has(Abs().entries, k) && Abs().entries == Without(old(Abs()).entries, k)
    {
      MapFinds(S(), k);
      StepBounded(cfg, Abs(), DelOp(k), now);
      Effect(DelOp(k), now);
      deleted := k in index;
      if deleted { EraseSlot(k); }
    }

    /** flush(): returns every slot to the pool, last entry first, then clears the map. */
    method Flush(now: Time)
      requires Valid()
      modifies this
      ensures Valid() && Abs() == Apply(cfg, old(Abs()), FlushOp, now) && Does(cfg, old(Abs()), FlushOp, now, Abs())
      ensures Abs().entries == [] && forall k :: !Has(Abs().entries, k)
    {
      while lru != []
        invariant Emptying(S()) && |slots| % SLOTS_PER_BLOCK == 0 && maxSize == old(maxSize)
        invariant usedSlots == |lru| && liveKeys == liveValues == |lru|
        decreases |lru|
      {
        TailFreedEmptying(S());
        var id := lru[|lru| - 1];
        lru := lru[..|lru| - 1];
        Deallocate(id);
      }
      index := map[];
      currentMemory := 0;
    }

    /** max_size(): evicts down to the new limit. */
    method SetMaxSize(limit: Limit, now: Time)
      requires Valid()
      modifies this
      ensures Valid() && Abs() == Apply(cfg, old(Abs()), MaxSizeOp(limit), now)
      ensures Does(cfg, old(Abs()), MaxSizeOp(limit), now, Abs())
    {
      StepBounded(cfg, Abs(), MaxSizeOp(limit), now);
      Effect(MaxSizeOp(limit), now);
      ghost var es := Abs().entries;
      maxSize := limit;
      while maxSize.AtMost? && |index| > maxSize.n
        invariant Consistent() && maxSize == limit && |index| <= |es| && Abs().entries == es[..|index|]
        invariant |index| < |es| ==> maxSize.AtMost? && |index| >= maxSize.n
        decreases |index|
      {
        ghost var n := |index|;
        EvictLru();
        assert es[..n][..n - 1] == es[..n - 1];
      }
      assert es[..|es|] == es;
    }
  }

  /** With a size limit of zero, add() says that it added a key which is then not found. */
  method AddedButMissing<K(==), V>(cfg: Config, k: K, v: V, now: Time) returns (added: bool, found: Option<V>)
    ensures added && found == None
  {
    var cache := new Cache(cfg, AtMost(0));
    var threw;
    added, threw := cache.Add(k, v, now, NoFault);
    found := cache.Peek(k);
  }
}
