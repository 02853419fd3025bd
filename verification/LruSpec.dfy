/**
 What a least-recently-used cache with delayed promotion does, as a function on
 the list of its entries (most recently promoted first), and what that means over
 whole runs: the list stays sorted by promotion time, every entry holds the value
 last stored under its key, and an eviction is wrong by less than the refresh time.
 */
module LruSpec {
  import opened Basics

  type Time = t: nat | t < U32

  datatype Entry<K, V> = Entry(key: K, value: V, stamp: Time, accessed: bool)

  datatype Config = Config(slotSize: nat, maxMemory: Limit, refresh: Time)

  datatype State<K, V> = State(maxSize: Limit, entries: seq<Entry<K, V>>)

  /** `fails` says that constructing the key, the value or the map entry throws. */
  datatype Op<K, V> =
    | SetOp(key: K, value: V, fails: bool) | AddOp(key: K, value: V, fails: bool)
    | GetOp(key: K) | DelOp(key: K) | FlushOp | MaxSizeOp(limit: Limit)

  /** Where `k` is in the list, or -1. */
  function Find<K(==), V>(es: seq<Entry<K, V>>, k: K): (r: int)
    ensures -1 <= r < |es|
    ensures r >= 0 ==> es[r].key == k
    ensures r < 0 ==> forall i :: 0 <= i < |es| ==> es[i].key != k
  {
    if es == [] then -1
    else if es[|es| - 1].key == k then |es| - 1
    else Find(es[..|es| - 1], k)
  }

  predicate Has<K(==), V>(es: seq<Entry<K, V>>, k: K) { Find(es, k) >= 0 }

  function Removed<T>(s: seq<T>, i: nat): (r: seq<T>)
    requires i < |s|
    ensures |r| == |s| - 1
    ensures forall j :: 0 <= j < |r| ==> r[j] == if j < i then s[j] else s[j + 1]
  {
    s[..i] + s[i + 1..]
  }

  /** record_access(): promotion waits until the refresh time has passed; the sum is a 32-bit sum. */
  function Touched<K, V>(es: seq<Entry<K, V>>, i: nat, now: Time, refresh: Time): seq<Entry<K, V>>
    requires i < |es|
  {
    if now < (es[i].stamp + refresh) % U32 then es
    else [es[i].(stamp := now, accessed := true)] + Removed(es, i)
  }

  /** At most `n` entries, the last ones dropped. */
  function Front<T>(s: seq<T>, n: nat): (r: seq<T>)
    ensures r <= s && |r| <= n && (|s| <= n ==> r == s)
  {
    if |s| <= n then s else s[..n]
  }

  function KeepMemory<T>(s: seq<T>, slotSize: nat, maxMemory: Limit): (r: seq<T>)
    ensures r <= s
    ensures r == [] || maxMemory.Allows(|r| * slotSize)
  {
    if s == [] || maxMemory.Allows(|s| * slotSize) then s else KeepMemory(s[..|s| - 1], slotSize, maxMemory)
  }

  function KeepSize<T>(s: seq<T>, maxSize: Limit): (r: seq<T>)
    requires maxSize != AtMost(0)
    ensures r <= s && maxSize.Allows(|r| + 1)
  {
    if maxSize.AtMost? then Front(s, maxSize.n - 1) else s
  }

  /** What is left once there is room for one more entry. */
  function Room<K, V>(cfg: Config, st: State<K, V>): (r: seq<Entry<K, V>>)
    requires st.maxSize != AtMost(0)
    ensures r <= st.entries && st.maxSize.Allows(|r| + 1)
  {
    KeepMemory(KeepSize(st.entries, st.maxSize), cfg.slotSize, cfg.maxMemory)
  }

  function Stored<K(==), V>(cfg: Config, st: State<K, V>, k: K, v: V, now: Time, fails: bool): State<K, V> {
    var i := Find(st.entries, k);
    if i >= 0 then st.(entries := Touched(st.entries[i := st.entries[i].(value := v)], i, now, cfg.refresh))
    else if st.maxSize == AtMost(0) then st
    else st.(entries := if fails then Room(cfg, st) else [Entry(k, v, now, false)] + Room(cfg, st))
  }

  function Apply<K(==), V>(cfg: Config, st: State<K, V>, op: Op<K, V>, now: Time): State<K, V> {
    var es := st.entries;
    match op
    case SetOp(k, v, fails) => Stored(cfg, st, k, v, now, fails)
    case AddOp(k, v, fails) => if Has(es, k) then st else Stored(cfg, st, k, v, now, fails)
    case GetOp(k) => if Has(es, k) then st.(entries := Touched(es, Find(es, k), now, cfg.refresh)) else st
    case DelOp(k) => if Has(es, k) then st.(entries := Removed(es, Find(es, k))) else st
    case FlushOp => st.(entries := [])
    case MaxSizeOp(l) => State(l, if l.AtMost? then Front(es, l.n) else es)
  }

  /** add() of an absent key stores it exactly when the size limit is not zero; at zero it changes nothing. */
  lemma AddedIsStored<K, V>(cfg: Config, st: State<K, V>, k: K, v: V, now: Time)
    requires !Has(st.entries, k)
    ensures var after := Apply(cfg, st, AddOp(k, v, false), now);
            && (Has(after.entries, k) <==> st.maxSize != AtMost(0))
            && (st.maxSize == AtMost(0) ==> after == st)
  {
    if st.maxSize != AtMost(0) { assert Apply(cfg, st, AddOp(k, v, false), now).entries[0].key == k; }
  }

  // ------------------------------------------------------------------
  // What one operation keeps
  // ------------------------------------------------------------------

  /** When a key was last set or read, and the value last stored under it. */
  datatype Use<V> = Use(time: Time, value: V)

  function Noted<K(==), V>(uses: map<K, Use<V>>, before: State<K, V>, after: State<K, V>, op: Op<K, V>, now: Time)
    : map<K, Use<V>>
  {
    match op
    case SetOp(k, v, _) => if Has(after.entries, k) then uses[k := Use(now, v)] else uses
    case AddOp(k, v, _) => if !Has(before.entries, k) && Has(after.entries, k) then uses[k := Use(now, v)] else uses
    case GetOp(k) => if Has(before.entries, k) && k in uses then uses[k := Use(now, uses[k].value)] else uses
    case _ => uses
  }

  function Slack(refresh: Time): nat { if refresh == 0 then 0 else refresh - 1 }

  ghost predicate UniqueKeys<K, V>(es: seq<Entry<K, V>>) {
    forall i, j :: 0 <= i < j < |es| ==> es[i].key != es[j].key
  }

  ghost predicate Sorted<K, V>(es: seq<Entry<K, V>>) {
    forall i, j :: 0 <= i < j < |es| ==> es[i].stamp >= es[j].stamp
  }

  ghost predicate UpToDate<K, V>(e: Entry<K, V>, uses: map<K, Use<V>>, refresh: Time, now: Time) {
    && e.key in uses && uses[e.key].value == e.value
    && e.stamp <= uses[e.key].time <= e.stamp + Slack(refresh)
    && uses[e.key].time <= now
  }

  ghost predicate Bounded<K, V>(cfg: Config, st: State<K, V>) {
    && st.maxSize.Allows(|st.entries|)
    && (cfg.maxMemory.AtMost? ==> |st.entries| * cfg.slotSize <= cfg.maxMemory.n + cfg.slotSize)
  }

  ghost predicate Ordered<K, V>(es: seq<Entry<K, V>>, uses: map<K, Use<V>>, refresh: Time, now: Time) {
    && UniqueKeys(es) && Sorted(es)
    && forall i :: 0 <= i < |es| ==> UpToDate(es[i], uses, refresh, now)
  }

  lemma FewerBounded<K, V>(cfg: Config, st: State<K, V>, es: seq<Entry<K, V>>)
    requires Bounded(cfg, st) && |es| <= |st.entries|
    ensures Bounded(cfg, st.(entries := es))
  {
    assert |es| * cfg.slotSize <= |st.entries| * cfg.slotSize;
  }

  lemma RoomBounded<K, V>(cfg: Config, st: State<K, V>, e: Entry<K, V>)
    requires st.maxSize != AtMost(0)
    ensures Bounded(cfg, st.(entries := [e] + Room(cfg, st)))
  {
    var r := Room(cfg, st);
    OneSlotMore(|r|, cfg.slotSize);
    assert |[e] + r| == |r| + 1;
  }

  lemma OneSlotMore(n: nat, size: nat)
    ensures (n + 1) * size == n * size + size
  {
  }

  lemma StoredBounded<K, V>(cfg: Config, st: State<K, V>, k: K, v: V, now: Time, fails: bool)
    requires Bounded(cfg, st)
    ensures Bounded(cfg, Stored(cfg, st, k, v, now, fails))
  {
    var after := Stored(cfg, st, k, v, now, fails);
    if Find(st.entries, k) >= 0 || st.maxSize == AtMost(0) || fails {
      FewerBounded(cfg, st, after.entries);
    } else {
      RoomBounded(cfg, st, Entry(k, v, now, false));
    }
  }

  /** The size limit always holds, and the memory limit up to the slot just added. */
  lemma StepBounded<K, V>(cfg: Config, st: State<K, V>, op: Op<K, V>, now: Time)
    requires Bounded(cfg, st)
    ensures Bounded(cfg, Apply(cfg, st, op, now))
  {
    var after := Apply(cfg, st, op, now);
    match op {
      case SetOp(k, v, fails) => StoredBounded(cfg, st, k, v, now, fails);
      case AddOp(k, v, fails) => StoredBounded(cfg, st, k, v, now, fails);
      case MaxSizeOp(l) => assert |after.entries| * cfg.slotSize <= |st.entries| * cfg.slotSize;
      case _ => { FewerBounded(cfg, st, after.entries); }
    }
  }

  lemma PrefixOrdered<K, V>(es: seq<Entry<K, V>>, n: nat, uses: map<K, Use<V>>, refresh: Time, was: Time, now: Time)
    requires Ordered(es, uses, refresh, was) && n <= |es| && was <= now
    ensures Ordered(es[..n], uses, refresh, now)
  {
  }

  lemma RemovedOrdered<K, V>(es: seq<Entry<K, V>>, i: nat, uses: map<K, Use<V>>, refresh: Time, was: Time, now: Time)
    requires Ordered(es, uses, refresh, was) && i < |es| && was <= now
    ensures Ordered(Removed(es, i), uses, refresh, now)
  {
  }

  lemma PushedOrdered<K, V>(e: Entry<K, V>, es: seq<Entry<K, V>>, uses: map<K, Use<V>>, refresh: Time, now: Time)
    requires Ordered(es, uses, refresh, now) && e.stamp == now
    requires forall i :: 0 <= i < |es| ==> es[i].key != e.key
    ensures Ordered([e] + es, uses[e.key := Use(now, e.value)], refresh, now)
  {
    forall i | 0 <= i < |es| ensures now >= es[i].stamp { assert UpToDate(es[i], uses, refresh, now); }
  }

  /** A promotion that waits leaves the entry's last use within the slack. */
  lemma WaitingOrdered<K, V>(es: seq<Entry<K, V>>, i: nat, v: V, uses: map<K, Use<V>>, refresh: Time,
                             was: Time, now: Time)
    requires Ordered(es, uses, refresh, was) && i < |es| && was <= now < (es[i].stamp + refresh) % U32
    ensures Ordered(es[i := es[i].(value := v)], uses[es[i].key := Use(now, v)], refresh, now)
  {
    assert UpToDate(es[i], uses, refresh, was);
    var es1, uses1 := es[i := es[i].(value := v)], uses[es[i].key := Use(now, v)];
    forall j | 0 <= j < |es1| ensures UpToDate(es1[j], uses1, refresh, now) {
      assert UpToDate(es[j], uses, refresh, was);
    }
  }

  lemma PromotedOrdered<K, V>(es: seq<Entry<K, V>>, i: nat, e: Entry<K, V>, uses: map<K, Use<V>>, refresh: Time,
                              was: Time, now: Time)
    requires Ordered(es, uses, refresh, was) && i < |es| && was <= now && e.key == es[i].key && e.stamp == now
    ensures Ordered([e] + Removed(es, i), uses[e.key := Use(now, e.value)], refresh, now)
  {
    RemovedOrdered(es, i, uses, refresh, was, now);
    PushedOrdered(e, Removed(es, i), uses, refresh, now);
  }

  lemma TouchedUpdated<K, V>(es: seq<Entry<K, V>>, i: nat, v: V, now: Time, refresh: Time)
    requires i < |es|
    ensures Touched(es[i := es[i].(value := v)], i, now, refresh) ==
              if now < (es[i].stamp + refresh) % U32 then es[i := es[i].(value := v)]
              else [es[i].(value := v, stamp := now, accessed := true)] + Removed(es, i)
  {
    assert Removed(es[i := es[i].(value := v)], i) == Removed(es, i);
  }

  lemma TouchedOrdered<K, V>(es: seq<Entry<K, V>>, i: nat, v: V, uses: map<K, Use<V>>, refresh: Time,
                             was: Time, now: Time)
    requires Ordered(es, uses, refresh, was) && i < |es| && was <= now
    ensures Ordered(Touched(es[i := es[i].(value := v)], i, now, refresh), uses[es[i].key := Use(now, v)], refresh, now)
  {
    TouchedUpdated(es, i, v, now, refresh);
    if now < (es[i].stamp + refresh) % U32 {
      WaitingOrdered(es, i, v, uses, refresh, was, now);
    } else {
      PromotedOrdered(es, i, es[i].(value := v, stamp := now, accessed := true), uses, refresh, was, now);
    }
  }

  lemma StoredOrdered<K, V>(cfg: Config, st: State<K, V>, uses: map<K, Use<V>>, k: K, v: V, fails: bool,
                            was: Time, now: Time)
    requires Ordered(st.entries, uses, cfg.refresh, was) && was <= now
    ensures var after := Stored(cfg, st, k, v, now, fails);
            Ordered(after.entries, if Has(after.entries, k) then uses[k := Use(now, v)] else uses, cfg.refresh, now)
  {
    var after := Stored(cfg, st, k, v, now, fails);
    var i := Find(st.entries, k);
    if i >= 0 {
      TouchedOrdered(st.entries, i, v, uses, cfg.refresh, was, now);
      assert exists j :: 0 <= j < |after.entries| && after.entries[j].key == k by {
        if after.entries[0].key != k { assert after.entries[i].key == k; }
      }
    } else if st.maxSize != AtMost(0) {
      var r := Room(cfg, st);
      PrefixOrdered(st.entries, |r|, uses, cfg.refresh, was, now);
      assert r == st.entries[..|r|];
      if !fails {
        PushedOrdered(Entry(k, v, now, false), r, uses, cfg.refresh, now);
        assert after.entries[0].key == k;
      }
    } else {
      PrefixOrdered(st.entries, |st.entries|, uses, cfg.refresh, was, now);
      assert st.entries[..|st.entries|] == st.entries;
    }
  }

  lemma GetOrdered<K, V>(cfg: Config, es: seq<Entry<K, V>>, uses: map<K, Use<V>>, i: nat, was: Time, now: Time)
    requires Ordered(es, uses, cfg.refresh, was) && was <= now && i < |es|
    ensures es[i].key in uses
    ensures Ordered(Touched(es, i, now, cfg.refresh), uses[es[i].key := Use(now, uses[es[i].key].value)],
                    cfg.refresh, now)
  {
    assert UpToDate(es[i], uses, cfg.refresh, was);
    assert es[i := es[i].(value := es[i].value)] == es;
    TouchedOrdered(es, i, es[i].value, uses, cfg.refresh, was, now);
  }

  /** Every operation keeps the list sorted, keys unique, values current and stamps close to the last use. */
  lemma StepOrdered<K, V>(cfg: Config, st: State<K, V>, uses: map<K, Use<V>>, op: Op<K, V>, was: Time, now: Time)
    requires Ordered(st.entries, uses, cfg.refresh, was) && was <= now
    ensures var after := Apply(cfg, st, op, now);
            Ordered(after.entries, Noted(uses, st, after, op, now), cfg.refresh, now)
  {
    var es := st.entries;
    PrefixOrdered(es, |es|, uses, cfg.refresh, was, now);
    assert es[..|es|] == es;
    match op {
      case SetOp(k, v, fails) => StoredOrdered(cfg, st, uses, k, v, fails, was, now);
      case AddOp(k, v, fails) => StoredOrdered(cfg, st, uses, k, v, fails, was, now);
      case GetOp(k) => if Has(es, k) { GetOrdered(cfg, es, uses, Find(es, k), was, now); }
      case DelOp(k) => if Has(es, k) { RemovedOrdered(es, Find(es, k), uses, cfg.refresh, was, now); }
      case FlushOp =>
      case MaxSizeOp(l) => if l.AtMost? && l.n < |es| { PrefixOrdered(es, l.n, uses, cfg.refresh, was, now); }
    }
  }

  // ------------------------------------------------------------------
  // Runs
  // ------------------------------------------------------------------

  type Event<K, V> = (Op<K, V>, Time)

  /** The clock never runs backwards. */
  ghost predicate Timed<K, V>(events: seq<Event<K, V>>) {
    forall i, j :: 0 <= i < j < |events| ==> events[i].1 <= events[j].1
  }

  function Clock<K, V>(events: seq<Event<K, V>>): Time { if events == [] then 0 else events[|events| - 1].1 }

  /** The state after a run that starts with an empty cache. */
  function Run<K(==), V>(cfg: Config, maxSize: Limit, events: seq<Event<K, V>>): State<K, V> {
    if events == [] then State(maxSize, []) else
    var (op, now) := events[|events| - 1];
    Apply(cfg, Run(cfg, maxSize, events[..|events| - 1]), op, now)
  }

  /** When each key was last set or read in a run, and the value last stored under it. */
  function Uses<K(==), V>(cfg: Config, maxSize: Limit, events: seq<Event<K, V>>): map<K, Use<V>> {
    if events == [] then map[] else
    var (op, now) := events[|events| - 1];
    var earlier := events[..|events| - 1];
    var before := Run(cfg, maxSize, earlier);
    Noted(Uses(cfg, maxSize, earlier), before, Apply(cfg, before, op, now), op, now)
  }

  /** Over every run the size and memory limits hold. */
  lemma {:induction false} RunBounded<K, V>(cfg: Config, maxSize: Limit, events: seq<Event<K, V>>)
    ensures Bounded(cfg, Run(cfg, maxSize, events))
  {
    if events != [] {
      var m := |events| - 1;
      RunBounded(cfg, maxSize, events[..m]);
      StepBounded(cfg, Run(cfg, maxSize, events[..m]), events[m].0, events[m].1);
    }
  }

  /** Over every run the list stays sorted by promotion time and holds the values last stored. */
  lemma {:induction false} RunOrdered<K, V>(cfg: Config, maxSize: Limit, events: seq<Event<K, V>>)
    requires Timed(events)
    ensures Ordered(Run(cfg, maxSize, events).entries, Uses(cfg, maxSize, events), cfg.refresh, Clock(events))
  {
    if events != [] {
      var m := |events| - 1;
      RunOrdered(cfg, maxSize, events[..m]);
      StepOrdered(cfg, Run(cfg, maxSize, events[..m]), Uses(cfg, maxSize, events[..m]), events[m].0,
                  Clock(events[..m]), events[m].1);
    }
  }

  /** `k` was pushed out by this operation, not deleted by it. */
  ghost predicate Evicts<K, V>(cfg: Config, st: State<K, V>, op: Op<K, V>, now: Time, k: K) {
    && Has(st.entries, k) && !Has(Apply(cfg, st, op, now).entries, k)
    && op != FlushOp && op != DelOp(k)
  }

  lemma FindUnique<K, V>(es: seq<Entry<K, V>>, j: nat)
    requires UniqueKeys(es) && j < |es|
    ensures Find(es, es[j].key) == j
  {
  }

  lemma PrefixFind<K, V>(es: seq<Entry<K, V>>, r: seq<Entry<K, V>>, e: K, f: K)
    requires UniqueKeys(es) && r <= es && Has(es, e) && !Has(r, e) && Has(r, f)
    ensures 0 <= Find(es, f) < Find(es, e)
  {
    FindUnique(es, Find(r, f));
  }

  lemma TouchedKeeps<K, V>(es: seq<Entry<K, V>>, i: nat, now: Time, refresh: Time, k: K)
    requires i < |es| && Has(es, k)
    ensures Has(Touched(es, i, now, refresh), k)
  {
    var j, after := Find(es, k), Touched(es, i, now, refresh);
    if after != es { assert after[if j == i then 0 else if j < i then j + 1 else j].key == k; }
  }

  lemma RemovedKeeps<K, V>(es: seq<Entry<K, V>>, i: nat, k: K)
    requires i < |es| && Has(es, k) && es[i].key != k
    ensures Has(Removed(es, i), k)
  {
    var j := Find(es, k);
    assert Removed(es, i)[if j < i then j else j - 1].key == k;
  }

  lemma UpdateKeeps<K, V>(es: seq<Entry<K, V>>, i: nat, v: V, k: K)
    requires i < |es| && Has(es, k)
    ensures Has(es[i := es[i].(value := v)], k)
  {
    assert es[i := es[i].(value := v)][Find(es, k)].key == k;
  }

  lemma ConsHas<K, V>(e: Entry<K, V>, r: seq<Entry<K, V>>, k: K)
    ensures Has([e] + r, k) <==> e.key == k || Has(r, k)
  {
    if Has(r, k) { assert ([e] + r)[Find(r, k) + 1].key == k; }
    if e.key == k { assert ([e] + r)[0].key == k; }
  }

  /** An evicted entry was behind `f` in the list, unless `f` is the new entry. */
  ghost predicate Behind<K, V>(es: seq<Entry<K, V>>, op: Op<K, V>, e: K, f: K) {
    0 <= Find(es, f) < Find(es, e) || ((op.SetOp? || op.AddOp?) && op.key == f && !Has(es, f))
  }

  lemma StoreEvicts<K, V>(cfg: Config, st: State<K, V>, op: Op<K, V>, now: Time, e: K, f: K)
    requires UniqueKeys(st.entries) && Evicts(cfg, st, op, now, e) && Has(Apply(cfg, st, op, now).entries, f)
    requires op.SetOp? || op.AddOp?
    ensures Behind(st.entries, op, e, f)
  {
    var es, k := st.entries, op.key;
    if Has(es, k) {
      var i := Find(es, k);
      UpdateKeeps(es, i, op.value, e);
      TouchedKeeps(es[i := es[i].(value := op.value)], i, now, cfg.refresh, e);
    } else if st.maxSize != AtMost(0) {
      var r := Room(cfg, st);
      ConsHas(Entry(k, op.value, now, false), r, e);
      ConsHas(Entry(k, op.value, now, false), r, f);
      if Has(r, f) { PrefixFind(es, r, e, f); }
    }
  }

  /** What is evicted lies behind everything that stays. */
  lemma EvictedBehindKept<K, V>(cfg: Config, st: State<K, V>, op: Op<K, V>, now: Time, e: K, f: K)
    requires UniqueKeys(st.entries) && Evicts(cfg, st, op, now, e) && Has(Apply(cfg, st, op, now).entries, f)
    ensures Behind(st.entries, op, e, f)
  {
    var es := st.entries;
    match op {
      case GetOp(k) => if Has(es, k) { TouchedKeeps(es, Find(es, k), now, cfg.refresh, e); }
      case DelOp(k) => if Has(es, k) { RemovedKeeps(es, Find(es, k), e); }
      case MaxSizeOp(l) => PrefixFind(es, Apply(cfg, st, op, now).entries, e, f);
      case _ => { StoreEvicts(cfg, st, op, now, e, f); }
    }
  }

  /** Only the operation's own key has its last use changed. */
  lemma OthersUnchanged<K, V>(uses: map<K, Use<V>>, before: State<K, V>, after: State<K, V>, op: Op<K, V>,
                             now: Time, k: K)
    requires k in uses
    ensures var u := Noted(uses, before, after, op, now);
            k in u && (u[k] == uses[k] || (u[k].time == now && (op.SetOp? || op.AddOp? || op.GetOp?) && op.key == k))
  {
  }

  lemma OwnKeyStays<K, V>(cfg: Config, st: State<K, V>, op: Op<K, V>, now: Time, k: K)
    requires Has(st.entries, k) && (op.SetOp? || op.AddOp? || op.GetOp?) && op.key == k
    ensures Has(Apply(cfg, st, op, now).entries, k)
  {
    var es, i := st.entries, Find(st.entries, k);
    if op.SetOp? {
      UpdateKeeps(es, i, op.value, k);
      TouchedKeeps(es[i := es[i].(value := op.value)], i, now, cfg.refresh, k);
    } else if op.GetOp? {
      TouchedKeeps(es, i, now, cfg.refresh, k);
    }
  }

  lemma NewKeyNow<K, V>(cfg: Config, st: State<K, V>, uses: map<K, Use<V>>, op: Op<K, V>, now: Time, k: K)
    requires !Has(st.entries, k) && Has(Apply(cfg, st, op, now).entries, k) && (op.SetOp? || op.AddOp?) && op.key == k
    ensures var u := Noted(uses, st, Apply(cfg, st, op, now), op, now); k in u && u[k].time == now
  {
  }

  lemma StampsOrder<K, V>(es: seq<Entry<K, V>>, uses: map<K, Use<V>>, refresh: Time, now: Time, i: nat, j: nat)
    requires Ordered(es, uses, refresh, now) && i < j < |es|
    ensures es[i].key in uses && es[j].key in uses
    ensures uses[es[j].key].time <= uses[es[i].key].time + Slack(refresh)
  {
    assert UpToDate(es[i], uses, refresh, now) && UpToDate(es[j], uses, refresh, now);
  }

  lemma StepEvictionError<K, V>(
      cfg: Config, st: State<K, V>, uses: map<K, Use<V>>, op: Op<K, V>, was: Time, now: Time, e: K, f: K)
    requires Ordered(st.entries, uses, cfg.refresh, was) && was <= now
    requires Evicts(cfg, st, op, now, e) && Has(Apply(cfg, st, op, now).entries, f)
    ensures var u := Noted(uses, st, Apply(cfg, st, op, now), op, now);
            e in u && f in u && u[e].time <= u[f].time + Slack(cfg.refresh)
  {
    var es, after := st.entries, Apply(cfg, st, op, now);
    var i, j := Find(es, f), Find(es, e);
    assert UpToDate(es[j], uses, cfg.refresh, was);
    OthersUnchanged(uses, st, after, op, now, e);
    if (op.SetOp? || op.AddOp? || op.GetOp?) && op.key == e { OwnKeyStays(cfg, st, op, now, e); }
    EvictedBehindKept(cfg, st, op, now, e, f);
    if 0 <= i < j {
      StampsOrder(es, uses, cfg.refresh, was, i, j);
      assert UpToDate(es[i], uses, cfg.refresh, was);
      OthersUnchanged(uses, st, after, op, now, f);
    } else {
      NewKeyNow(cfg, st, uses, op, now, f);
    }
  }

  /**
   Bounded error: in every run, what an operation evicts was last used less than the refresh
   time after anything it keeps.
   */
  lemma EvictionError<K, V>(cfg: Config, maxSize: Limit, events: seq<Event<K, V>>, op: Op<K, V>, now: Time, e: K, f: K)
    requires Timed(events + [(op, now)])
    requires Evicts(cfg, Run(cfg, maxSize, events), op, now, e)
    requires Has(Run(cfg, maxSize, events + [(op, now)]).entries, f)
    ensures var uses := Uses(cfg, maxSize, events + [(op, now)]);
            && e in uses && f in uses
            && uses[e].time <= uses[f].time + Slack(cfg.refresh)
  {
    var all := events + [(op, now)];
    assert all[..|events|] == events;
    assert Timed(events) && Clock(events) <= now by {
      if events != [] { assert all[|events| - 1].1 <= all[|events|].1; }
      forall i, j | 0 <= i < j < |events| ensures events[i].1 <= events[j].1 { assert all[i].1 <= all[j].1; }
    }
    RunOrdered(cfg, maxSize, events);
    StepEvictionError(cfg, Run(cfg, maxSize, events), Uses(cfg, maxSize, events), op, Clock(events), now, e, f);
  }

  // ------------------------------------------------------------------
  // The bound is reached
  // ------------------------------------------------------------------

  lemma OneMoreEvent<K, V>(cfg: Config, maxSize: Limit, events: seq<Event<K, V>>, op: Op<K, V>, now: Time,
                           all: seq<Event<K, V>>)
    requires all == events + [(op, now)]
    ensures Run(cfg, maxSize, all) == Apply(cfg, Run(cfg, maxSize, events), op, now)
    ensures Uses(cfg, maxSize, all)
         == Noted(Uses(cfg, maxSize, events), Run(cfg, maxSize, events), Run(cfg, maxSize, all), op, now)
  {
    assert all[..|events|] == events;
  }

  lemma LaterEvent<K, V>(events: seq<Event<K, V>>, op: Op<K, V>, now: Time)
    requires Timed(events) && Clock(events) <= now
    ensures Timed(events + [(op, now)])
  {
    var all := events + [(op, now)];
    forall i, j | 0 <= i < j < |all| ensures all[i].1 <= all[j].1 {
      if j == |events| { assert events[i].1 <= Clock(events); }
    }
  }

  lemma TwoKeys(cfg: Config) returns (events: seq<Event<nat, nat>>)
    requires cfg.maxMemory == Unlimited
    ensures Timed(events) && Clock(events) == 0
    ensures Run(cfg, AtMost(2), events) == State(AtMost(2), [Entry(1, 0, 0, false), Entry(0, 0, 0, false)])
    ensures Uses(cfg, AtMost(2), events) == map[0 := Use(0, 0), 1 := Use(0, 0)]
  {
    var e1: seq<Event<nat, nat>> := [(SetOp(0, 0, false), 0)];
    OneMoreEvent(cfg, AtMost(2), [], SetOp(0, 0, false), 0, e1);
    assert Run(cfg, AtMost(2), e1).entries == [Entry(0, 0, 0, false)];
    events := e1 + [(SetOp(1, 0, false), 0)];
    OneMoreEvent(cfg, AtMost(2), e1, SetOp(1, 0, false), 0, events);
    assert Run(cfg, AtMost(2), events).entries == [Entry(1, 0, 0, false), Entry(0, 0, 0, false)];
  }

  /** Reading the first key before its refresh time has passed notes the use and moves nothing. */
  lemma EarlyRead(cfg: Config, st: State<nat, nat>, now: Time)
    requires now < cfg.refresh && st == State(AtMost(2), [Entry(1, 0, 0, false), Entry(0, 0, 0, false)])
    ensures Apply(cfg, st, GetOp(0), now) == st
    ensures Noted(map[0 := Use(0, 0), 1 := Use(0, 0)], st, st, GetOp(0), now) == map[0 := Use(now, 0), 1 := Use(0, 0)]
  {
    assert st.entries[1].key == 0 && Find(st.entries, 0) == 1;
  }

  /** Two keys stored at once, the first then read just before it may be promoted. */
  lemma WaitingRun(refresh: Time) returns (events: seq<Event<nat, nat>>)
    requires refresh >= 1
    ensures var cfg := Config(1, Unlimited, refresh);
            && Timed(events) && Clock(events) == refresh - 1
            && Run(cfg, AtMost(2), events) == State(AtMost(2), [Entry(1, 0, 0, false), Entry(0, 0, 0, false)])
            && Uses(cfg, AtMost(2), events) == map[0 := Use(refresh - 1, 0), 1 := Use(0, 0)]
  {
    var cfg := Config(1, Unlimited, refresh);
    var stored := TwoKeys(cfg);
    EarlyRead(cfg, Run(cfg, AtMost(2), stored), refresh - 1);
    LaterEvent(stored, GetOp(0), refresh - 1);
    events := stored + [(GetOp(0), refresh - 1)];
    OneMoreEvent(cfg, AtMost(2), stored, GetOp(0), refresh - 1, events);
  }

  /** Storing a third key pushes out the one at the end. */
  lemma ThirdKey(cfg: Config, st: State<nat, nat>, now: Time)
    requires cfg.maxMemory == Unlimited && st == State(AtMost(2), [Entry(1, 0, 0, false), Entry(0, 0, 0, false)])
    ensures Apply(cfg, st, SetOp(2, 0, false), now)
         == State(AtMost(2), [Entry(2, 0, now, false), Entry(1, 0, 0, false)])
    ensures Evicts(cfg, st, SetOp(2, 0, false), now, 0)
  {
    assert Room(cfg, st) == [Entry(1, 0, 0, false)];
  }

  /** For every refresh time some run evicts a key used exactly refresh - 1 seconds after one it keeps. */
  lemma SlackIsReached(refresh: Time) returns (events: seq<Event<nat, nat>>, op: Op<nat, nat>)
    requires refresh >= 1
    ensures var cfg, now := Config(1, Unlimited, refresh), refresh - 1;
            && Timed(events + [(op, now)])
            && Evicts(cfg, Run(cfg, AtMost(2), events), op, now, 0)
            && Has(Run(cfg, AtMost(2), events + [(op, now)]).entries, 1)
            && var uses := Uses(cfg, AtMost(2), events + [(op, now)]);
               0 in uses && 1 in uses && uses[0].time == uses[1].time + Slack(refresh)
  {
    var cfg, now := Config(1, Unlimited, refresh), refresh - 1;
    events := WaitingRun(refresh);
    op := SetOp(2, 0, false);
    var all := events + [(op, now)];
    OneMoreEvent(cfg, AtMost(2), events, op, now, all);
    ThirdKey(cfg, Run(cfg, AtMost(2), events), now);
    LaterEvent(events, op, now);
  }
}
