/**
 What each operation of the cache does to its entries, said without naming how the
 list is edited: which key is stored, touched or gone, that all others stay in their
 order, and that an operation evicts no more than the limits ask for.
 */
module LruEffects {
  import opened Basics
  import opened LruSpec

  /** The entries under other keys, in their order. */
  function Without<K(==), V>(es: seq<Entry<K, V>>, k: K): seq<Entry<K, V>> {
    if es == [] then [] else
    var m := |es| - 1;
    if es[m].key == k then Without(es[..m], k) else Without(es[..m], k) + [es[m]]
  }

  /** The refresh time of this entry has passed, as a 32-bit clock sees it. */
  predicate Due<K, V>(e: Entry<K, V>, now: Time, refresh: Time) {
    now >= if e.stamp + refresh < U32 then e.stamp + refresh else e.stamp + refresh - U32
  }

  /** `after` is `before` with the entry of `k` holding `v`, at the head with a new stamp if it was due. */
  ghost predicate Touches<K, V>(before: seq<Entry<K, V>>, after: seq<Entry<K, V>>, k: K, v: V, now: Time,
                                refresh: Time) {
    exists i {:trigger before[i]} :: 0 <= i < |before| && before[i].key == k &&
      after == if Due(before[i], now, refresh) then [Entry(k, v, now, true)] + Without(before, k)
               else before[i := before[i].(value := v)]
  }

  /** `kept` is the longest front part of `es` that leaves room for one more entry. */
  ghost predicate MakesRoom<K, V>(cfg: Config, limit: Limit, es: seq<Entry<K, V>>, kept: seq<Entry<K, V>>) {
    && kept <= es && limit.Allows(|kept| + 1) && (kept == [] || cfg.maxMemory.Allows(|kept| * cfg.slotSize))
    && (|kept| < |es| ==> !limit.Allows(|kept| + 2) || !cfg.maxMemory.Allows((|kept| + 1) * cfg.slotSize))
  }

  /** A key that is not there: nothing at a limit of zero, else room is made and the entry put at the head. */
  ghost predicate Inserts<K, V>(cfg: Config, before: State<K, V>, after: seq<Entry<K, V>>, e: Entry<K, V>,
                                fails: bool) {
    if before.maxSize == AtMost(0) then after == before.entries
    else if fails then MakesRoom(cfg, before.maxSize, before.entries, after)
    else after != [] && after[0] == e && MakesRoom(cfg, before.maxSize, before.entries, after[1..])
  }

  /** The longest front part of `es` with at most as many entries as the limit allows. */
  ghost predicate Shortens<K, V>(limit: Limit, es: seq<Entry<K, V>>, kept: seq<Entry<K, V>>) {
    kept <= es && limit.Allows(|kept|) && (|kept| < |es| ==> !limit.Allows(|kept| + 1))
  }

  /** What `op` does. */
  ghost predicate Does<K, V>(cfg: Config, before: State<K, V>, op: Op<K, V>, now: Time, after: State<K, V>) {
    var es, es' := before.entries, after.entries;
    && after.maxSize == (if op.MaxSizeOp? then op.limit else before.maxSize)
    && match op
       case SetOp(k, v, fails) =>
         if Has(es, k) then Touches(es, es', k, v, now, cfg.refresh)
         else Inserts(cfg, before, es', Entry(k, v, now, false), fails)
       case AddOp(k, v, fails) =>
         if Has(es, k) then es' == es else Inserts(cfg, before, es', Entry(k, v, now, false), fails)
       case GetOp(k) =>
         if Has(es, k) then Touches(es, es', k, es[Find(es, k)].value, now, cfg.refresh) else es' == es
       case DelOp(k) => !Has(es', k) && es' == Without(es, k)
       case FlushOp => es' == []
       case MaxSizeOp(limit) => Shortens(limit, es, es')
  }

  lemma {:induction false} WithoutAbsent<K, V>(es: seq<Entry<K, V>>, k: K)
    requires forall i :: 0 <= i < |es| ==> es[i].key != k
    ensures Without(es, k) == es
  {
    if es != [] {
      WithoutAbsent(es[..|es| - 1], k);
      assert es == es[..|es| - 1] + [es[|es| - 1]];
    }
  }

  lemma {:induction false} WithoutPresent<K, V>(es: seq<Entry<K, V>>, i: nat)
    requires UniqueKeys(es) && i < |es|
    ensures Without(es, es[i].key) == Removed(es, i)
  {
    var m := |es| - 1;
    if i == m {
      WithoutAbsent(es[..m], es[m].key);
      assert Removed(es, m) == es[..m];
    } else {
      WithoutPresent(es[..m], i);
      assert Removed(es, i) == Removed(es[..m], i) + [es[m]];
    }
  }

  lemma RemovedLacks<K, V>(es: seq<Entry<K, V>>, i: nat)
    requires UniqueKeys(es) && i < |es|
    ensures !Has(Removed(es, i), es[i].key)
  {
  }

  lemma TouchedTouches<K, V>(es: seq<Entry<K, V>>, i: nat, v: V, now: Time, refresh: Time)
    requires UniqueKeys(es) && i < |es|
    ensures Touches(es, Touched(es[i := es[i].(value := v)], i, now, refresh), es[i].key, v, now, refresh)
  {
    var e := es[i].(value := v);
    WithoutPresent(es, i);
    assert Removed(es[i := e], i) == Removed(es, i);
    assert (e.stamp + refresh) % U32 == if e.stamp + refresh < U32 then e.stamp + refresh else e.stamp + refresh - U32;
    assert es[i].key == es[i].key;
  }

  lemma {:induction false} KeepMemoryLongest<T>(s: seq<T>, slotSize: nat, maxMemory: Limit)
    ensures var r := KeepMemory(s, slotSize, maxMemory); |r| < |s| ==> !maxMemory.Allows((|r| + 1) * slotSize)
  {
    if s != [] && !maxMemory.Allows(|s| * slotSize) {
      KeepMemoryLongest(s[..|s| - 1], slotSize, maxMemory);
    }
  }

  lemma RoomMakesRoom<K, V>(cfg: Config, st: State<K, V>)
    requires st.maxSize != AtMost(0)
    ensures MakesRoom(cfg, st.maxSize, st.entries, Room(cfg, st))
  {
    KeepMemoryLongest(KeepSize(st.entries, st.maxSize), cfg.slotSize, cfg.maxMemory);
  }

  lemma StoredInserts<K, V>(cfg: Config, st: State<K, V>, k: K, v: V, now: Time, fails: bool)
    requires !Has(st.entries, k)
    ensures Inserts(cfg, st, Stored(cfg, st, k, v, now, fails).entries, Entry(k, v, now, false), fails)
  {
    if st.maxSize != AtMost(0) {
      RoomMakesRoom(cfg, st);
      var r := Room(cfg, st);
      assert ([Entry(k, v, now, false)] + r)[1..] == r;
    }
  }

  lemma SetDoes<K, V>(cfg: Config, st: State<K, V>, k: K, v: V, fails: bool, now: Time)
    requires UniqueKeys(st.entries)
    ensures Does(cfg, st, SetOp(k, v, fails), now, Stored(cfg, st, k, v, now, fails))
  {
    if Has(st.entries, k) {
      TouchedTouches(st.entries, Find(st.entries, k), v, now, cfg.refresh);
    } else {
      StoredInserts(cfg, st, k, v, now, fails);
    }
  }

  lemma AddDoes<K, V>(cfg: Config, st: State<K, V>, k: K, v: V, fails: bool, now: Time)
    ensures Does(cfg, st, AddOp(k, v, fails), now, Apply(cfg, st, AddOp(k, v, fails), now))
  {
    if !Has(st.entries, k) { StoredInserts(cfg, st, k, v, now, fails); }
  }

  lemma GetDoes<K, V>(cfg: Config, st: State<K, V>, k: K, now: Time)
    requires UniqueKeys(st.entries)
    ensures Does(cfg, st, GetOp(k), now, Apply(cfg, st, GetOp(k), now))
  {
    var es := st.entries;
    if Has(es, k) {
      var i := Find(es, k);
      assert es[i := es[i].(value := es[i].value)] == es;
      TouchedTouches(es, i, es[i].value, now, cfg.refresh);
    }
  }

  lemma DelDoes<K, V>(cfg: Config, st: State<K, V>, k: K, now: Time)
    requires UniqueKeys(st.entries)
    ensures Does(cfg, st, DelOp(k), now, Apply(cfg, st, DelOp(k), now))
  {
    if Has(st.entries, k) {
      WithoutPresent(st.entries, Find(st.entries, k));
      RemovedLacks(st.entries, Find(st.entries, k));
    } else {
      WithoutAbsent(st.entries, k);
    }
  }

  lemma MaxSizeDoes<K, V>(cfg: Config, st: State<K, V>, limit: Limit, now: Time)
    ensures Does(cfg, st, MaxSizeOp(limit), now, Apply(cfg, st, MaxSizeOp(limit), now))
  {
  }

  /** Every operation does just that. */
  lemma ApplyDoes<K, V>(cfg: Config, st: State<K, V>, op: Op<K, V>, now: Time)
    requires UniqueKeys(st.entries)
    ensures Does(cfg, st, op, now, Apply(cfg, st, op, now))
  {
    match op {
      case SetOp(k, v, fails) => SetDoes(cfg, st, k, v, fails, now);
      case AddOp(k, v, fails) => AddDoes(cfg, st, k, v, fails, now);
      case GetOp(k) => GetDoes(cfg, st, k, now);
      case DelOp(k) => DelDoes(cfg, st, k, now);
      case FlushOp => { }
      case MaxSizeOp(limit) => MaxSizeDoes(cfg, st, limit, now);
    }
  }

  /** Other keys keep their entries through a deletion. */
  lemma {:induction false} OthersKept<K, V>(es: seq<Entry<K, V>>, k: K, e: Entry<K, V>)
    requires e.key != k
    ensures e in Without(es, k) <==> e in es
  {
    if es != [] {
      var m := |es| - 1;
      OthersKept(es[..m], k, e);
      assert es == es[..m] + [es[m]];
    }
  }
}
