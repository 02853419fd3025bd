/**
 Hot-key replication: a registered key is copied under several replica keys and
 reads pick one of the copies. As long as the replica keys are distinct and never
 used as ordinary keys, this behaves like a plain map that may forget.
 */
module Replication {
  import opened Arithmetic
  import opened Basics

  /** The replica numbers that are ever used; number 0 is tried even when there are no replicas. */
  function Numbers(factor: nat): nat { if factor == 0 then 1 else factor }

  /** No replica key is an ordinary key, and no two replicas share one. */
  ghost predicate Good<K(!new)>(replica: (K, nat) -> K, original: K -> bool, factor: nat) {
    && (forall k: K, i: nat :: original(k) && i < Numbers(factor) ==> !original(replica(k, i)))
    && (forall k: K, i: nat, l: K, j: nat ::
          original(k) && original(l) && i < Numbers(factor) && j < Numbers(factor) && replica(k, i) == replica(l, j) ==>
          k == l && i == j)
  }

  ghost predicate CopyOf<K>(replica: (K, nat) -> K, k: K, n: nat, x: K) {
    exists i: nat {:trigger replica(k, i)} :: i < n && replica(k, i) == x
  }

  /** None of the evictions from number `i` on, below `n`, takes `x`. */
  ghost predicate Spared<K>(drops: nat -> set<K>, i: nat, n: nat, x: K) {
    forall j: nat :: i <= j < n ==> x !in drops(j)
  }

  /** Copy `i` was written and is there unless an eviction since has taken it. */
  ghost predicate CopyMade<K, V>(replica: (K, nat) -> K, now: map<K, V>, k: K, v: V, i: nat, n: nat,
                                 drops: nat -> set<K>) {
    var x := replica(k, i);
    (x in now <==> Spared(drops, i, n, x)) && (x in now ==> now[x] == v)
  }

  /** What no copy replaces is there, as it was, unless an eviction has taken it. */
  ghost predicate Undisturbed<K, V>(was: map<K, V>, now: map<K, V>, n: nat, drops: nat -> set<K>, x: K) {
    (x in now <==> x in was && Spared(drops, 0, n, x)) && (x in now ==> now[x] == was[x])
  }

  /** `now` is `was` after `v` was written under the first `n` replica keys of `k`, each write with its evictions. */
  ghost predicate Copied<K(!new), V>(replica: (K, nat) -> K, was: map<K, V>, now: map<K, V>, k: K, v: V, n: nat,
                                     drops: nat -> set<K>) {
    && (forall i: nat :: i < n ==> CopyMade(replica, now, k, v, i, n, drops))
    && (forall x: K :: !CopyOf(replica, k, n, x) ==> Undisturbed(was, now, n, drops, x))
  }

  /** `now` is `was` without the first `n` copies of `k`. */
  ghost predicate CopiesRemoved<K(!new), V>(replica: (K, nat) -> K, was: map<K, V>, now: map<K, V>, k: K, n: nat) {
    forall x: K :: (x in now <==> x in was && !CopyOf(replica, k, n, x)) && (x in now && x in was ==> now[x] == was[x])
  }

  lemma RemovedOneMore<K(!new), V>(replica: (K, nat) -> K, was: map<K, V>, now: map<K, V>, k: K, n: nat)
    requires CopiesRemoved(replica, was, now, k, n)
    ensures CopiesRemoved(replica, was, now - {replica(k, n)}, k, n + 1)
  {
    var next, m := now - {replica(k, n)}, n + 1;
    forall x: K
      ensures (x in next <==> x in was && !CopyOf(replica, k, m, x)) && (x in next && x in was ==> next[x] == was[x])
    {
      assert CopyOf(replica, k, m, x) <==> CopyOf(replica, k, n, x) || replica(k, n) == x;
    }
  }

  lemma CopiedOneMore<K(!new), V>(replica: (K, nat) -> K, original: K -> bool, factor: nat, was: map<K, V>,
                                  now: map<K, V>, k: K, v: V, n: nat, drops: nat -> set<K>)
    requires Good(replica, original, factor) && original(k) && n < factor && Copied(replica, was, now, k, v, n, drops)
    ensures Copied(replica, was, now[replica(k, n) := v] - drops(n), k, v, n + 1, drops)
  {
    var next, m := now[replica(k, n) := v] - drops(n), n + 1;
    forall i: nat | i < m ensures CopyMade(replica, next, k, v, i, m, drops) {
      if i < n { assert CopyMade(replica, now, k, v, i, n, drops) && replica(k, i) != replica(k, n); }
    }
    forall x: K | !CopyOf(replica, k, m, x) ensures Undisturbed(was, next, m, drops, x) {
      assert replica(k, n) != x && !CopyOf(replica, k, n, x);
      assert Undisturbed(was, now, n, drops, x);
    }
  }

  class Manager<K(==, !new), V> {
    const replica: (K, nat) -> K
    const original: K -> bool            // the keys the application uses
    const factor: nat
    const maxKeys: nat
    var metadata: map<K, nat>            // registered keys and their number of replicas
    var cache: map<K, V>
    ghost var latest: map<K, V>          // the value last set under each key
    ghost var owner: map<K, (K, nat)>    // which replica of which key a replica key stands for

    ghost predicate Current(x: K, k: K)
      reads this
    {
      x in cache && k in latest && cache[x] == latest[k]
    }

    /** What is cached under an ordinary key is its latest value. */
    ghost predicate OriginalsCurrent()
      reads this
    {
      forall x :: x in cache && original(x) ==> Current(x, x)
    }

    ghost predicate Owned(x: K)
      reads this
    {
      x in owner && original(owner[x].0) && owner[x].1 < factor && x == replica(owner[x].0, owner[x].1)
    }

    /** Copies belong to registered keys, so none is an orphan, and hold the latest value. */
    ghost predicate CopiesCurrent()
      reads this
    {
      forall x :: x in cache && !original(x) ==> Owned(x) && owner[x].0 in metadata && Current(x, owner[x].0)
    }

    ghost predicate Valid()
      reads this
    {
      && Good(replica, original, factor)
      && (forall k :: k in metadata ==> original(k) && metadata[k] == factor)
      && OriginalsCurrent() && CopiesCurrent()
    }

    constructor (replica: (K, nat) -> K, original: K -> bool, factor: nat, maxKeys: nat, cache: map<K, V>)
      requires Good(replica, original, factor) && forall x :: x in cache ==> original(x)
      ensures Valid() && metadata == map[] && latest == cache == this.cache
    {
      this.replica, this.original, this.factor, this.maxKeys := replica, original, factor, maxKeys;
      this.cache, latest, metadata, owner := cache, cache, map[], map[];
    }

    /** A cache write, followed by the evictions `drop`. */
    method CacheSet(k: K, v: V, drop: set<K>)
      modifies this`cache
      ensures cache == old(cache)[k := v] - drop
    {
      cache := cache[k := v];
      cache := cache - drop;
    }

    /** Writes replica `i` of `k`. */
    method WriteReplica(k: K, i: nat, v: V, drop: set<K>)
      requires Good(replica, original, factor) && original(k) && i < factor
      modifies this`cache, this`owner
      ensures cache == old(cache)[replica(k, i) := v] - drop
      ensures owner == old(owner)[replica(k, i) := (k, i)] && !original(replica(k, i))
    {
      CacheSet(replica(k, i), v, drop);
      owner := owner[replica(k, i) := (k, i)];
    }

    /** The copies in the cache are of registered keys or of `k`, and current. */
    ghost predicate CopiesOr(k: K)
      reads this
    {
      forall x :: x in cache && !original(x) ==>
        Owned(x) && (owner[x].0 == k || owner[x].0 in metadata) && Current(x, owner[x].0)
    }

    /** Writes the copies of a key that is not registered yet. */
    method MakeCopies(k: K, v: V, drops: nat -> set<K>)
      requires Good(replica, original, factor) && original(k) && k in latest && latest[k] == v
      requires OriginalsCurrent() && CopiesOr(k)
      modifies this`cache, this`owner
      ensures OriginalsCurrent() && CopiesOr(k) && Copied(replica, old(cache), cache, k, v, factor, drops)
    {
      for i := 0 to factor
        modifies this`cache, this`owner
        invariant OriginalsCurrent() && CopiesOr(k) && Copied(replica, old(cache), cache, k, v, i, drops)
      {
        CopiedOneMore(replica, original, factor, old(cache), cache, k, v, i, drops);
        WriteReplica(k, i, v, drops(i));
      }
    }

    /** register_hot_key(); the write of copy `i` evicts `drops(i)`. */
    method Register(k: K, drops: nat -> set<K>)
      requires Valid() && original(k)
      modifies this`cache, this`owner, this`metadata
      ensures Valid()
      ensures metadata == if k in old(metadata) || |old(metadata)| >= maxKeys || k !in old(cache) then old(metadata)
                          else old(metadata)[k := factor]
      ensures if metadata == old(metadata) then cache == old(cache)
              else k in old(cache) && Copied(replica, old(cache), cache, k, old(cache)[k], factor, drops)
    {
      if k in metadata || |metadata| >= maxKeys || k !in cache { return; }
      var v := cache[k];
      assert Current(k, k);
      MakeCopies(k, v, drops);
      metadata := metadata[k := factor];
    }

    method RemoveCopies(k: K)
      requires OriginalsCurrent() && CopiesCurrent()
      modifies this`cache
      ensures OriginalsCurrent() && CopiesCurrent() && CopiesRemoved(replica, old(cache), cache, k, factor)
    {
      for i := 0 to factor
        modifies this`cache
        invariant OriginalsCurrent() && CopiesCurrent() && CopiesRemoved(replica, old(cache), cache, k, i)
      {
        RemovedOneMore(replica, old(cache), cache, k, i);
        cache := cache - {replica(k, i)};
      }
    }

    /** unregister_hot_key(): removes every copy of the key and nothing else. */
    method Unregister(k: K)
      requires Valid() && original(k)
      modifies this`cache, this`metadata
      ensures Valid() && metadata == old(metadata) - {k}
      ensures forall i: nat :: i < factor ==> replica(k, i) !in cache
      ensures if k in old(metadata) then CopiesRemoved(replica, old(cache), cache, k, factor) else cache == old(cache)
    {
      if k !in metadata {
        NotRegistered(k);
        return;
      }
      RemoveCopies(k);
      assert forall i: nat :: i < factor ==> CopyOf(replica, k, factor, replica(k, i));
      metadata := metadata - {k};
    }

    /** A key that is not registered has no copies. */
    lemma NotRegistered(k: K)
      requires Valid() && original(k) && k !in metadata
      ensures forall i: nat :: i < factor ==> replica(k, i) !in cache
    {
    }

    /** Brings the copies of `k` up to date; until then they may hold its previous value. */
    method UpdateCopies(k: K, v: V, drops: nat -> set<K>)
      requires Good(replica, original, factor) && original(k) && k in metadata && metadata[k] == factor
      requires OriginalsCurrent() && k in latest && latest[k] == v
      requires forall x :: x in cache && !original(x) ==>
                 Owned(x) && owner[x].0 in metadata && (Current(x, owner[x].0) || owner[x].0 == k)
      modifies this`cache, this`owner
      ensures OriginalsCurrent() && CopiesCurrent()
      ensures Copied(replica, old(cache), cache, k, v, factor, drops)
    {
      for i := 0 to metadata[k]
        modifies this`cache, this`owner
        invariant OriginalsCurrent() && Copied(replica, old(cache), cache, k, v, i, drops)
        invariant forall x :: x in cache && !original(x) ==>
                    && Owned(x) && owner[x].0 in metadata
                    && (Current(x, owner[x].0) || (owner[x].0 == k && owner[x].1 >= i))
      {
        CopiedOneMore(replica, original, factor, old(cache), cache, k, v, i, drops);
        WriteReplica(k, i, v, drops(i));
      }
    }

    /** replicated_set(): the plain map's update; the writes evict `first`, then `drops(0)`, `drops(1)` and so on. */
    method ReplicatedSet(k: K, v: V, first: set<K>, drops: nat -> set<K>)
      requires Valid() && original(k)
      modifies this`cache, this`owner, this`latest
      ensures Valid() && latest == old(latest)[k := v]
      ensures var written := old(cache)[k := v] - first;
              if k in metadata then Copied(replica, written, cache, k, v, factor, drops) else cache == written
    {
      latest := latest[k := v];
      CacheSet(k, v, first);
      if k in metadata { UpdateCopies(k, v, drops); }
    }

    /** replicated_get(), whichever replica is picked: the latest value, or a miss. */
    method ReplicatedGet(k: K, pick: nat) returns (r: Option<V>)
      requires Valid() && original(k)
      requires k in metadata && metadata[k] > 0 ==> pick < metadata[k]
      ensures r.Some? ==> k in latest && r.value == latest[k]
      ensures k in cache || (k in metadata && replica(k, if metadata[k] > 0 then pick else 0) in cache) <==> r.Some?
    {
      if k !in metadata {
        return if k in cache then Some(cache[k]) else None;
      }
      var x := replica(k, if metadata[k] > 0 then pick else 0);
      if x in cache {
        assert Owned(x) && owner[x].0 == k;
        return Some(cache[x]);
      }
      return if k in cache then Some(cache[k]) else None;
    }
  }

  // ------------------------------------------------------------------
  // Two replicated_set() calls on one key
  // ------------------------------------------------------------------

  /** The key and its copies in the order of the writes, and which one each of the two calls writes next. */
  datatype Race<V> = Race(slots: seq<V>, a: nat, b: nat)

  /** The lock is shared, so the single writes of the two calls alternate at will. */
  function Turn<V>(s: Race<V>, first: bool, v: V, w: V): Race<V> {
    if first then
      if s.a < |s.slots| then s.(slots := s.slots[s.a := v], a := s.a + 1) else s
    else
      if s.b < |s.slots| then s.(slots := s.slots[s.b := w], b := s.b + 1) else s
  }

  function Raced<V>(s: Race<V>, turns: seq<bool>, v: V, w: V): Race<V> {
    if turns == [] then s
    else Turn(Raced(s, turns[..|turns| - 1], v, w), turns[|turns| - 1], v, w)
  }

  ghost predicate Finished<V>(s: Race<V>) { s.a == s.b == |s.slots| }

  ghost predicate Agree<V>(slots: seq<V>) { forall i :: 0 <= i < |slots| ==> slots[i] == slots[0] }

  ghost predicate Diverges<V>(slots: seq<V>, turns: seq<bool>, v: V, w: V) {
    var s := Raced(Race(slots, 0, 0), turns, v, w);
    Finished(s) && !Agree(s.slots)
  }

  ghost predicate CanDiverge<V>(slots: seq<V>, v: V, w: V) { exists turns :: Diverges(slots, turns, v, w) }

  lemma {:induction false} RacedInTwo<V>(s: Race<V>, t: seq<bool>, u: seq<bool>, v: V, w: V)
    ensures Raced(Raced(s, t, v, w), u, v, w) == Raced(s, t + u, v, w)
    decreases |u|
  {
    if u == [] {
      assert t + u == t;
    } else {
      assert (t + u)[..|t + u| - 1] == t + u[..|u| - 1];
      RacedInTwo(s, t, u[..|u| - 1], v, w);
    }
  }

  /** What is written before the position of either call is one of the two values. */
  ghost predicate Written<V>(s: Race<V>, v: V, w: V) {
    && s.a <= |s.slots| && s.b <= |s.slots|
    && (forall i :: 0 <= i < s.a ==> s.slots[i] == v || s.slots[i] == w)
    && (forall i :: 0 <= i < s.b ==> s.slots[i] == v || s.slots[i] == w)
  }

  lemma {:induction false} OnlyTheseWritten<V>(slots: seq<V>, turns: seq<bool>, v: V, w: V)
    ensures var s := Raced(Race(slots, 0, 0), turns, v, w); |s.slots| == |slots| && Written(s, v, w)
  {
    if turns != [] { OnlyTheseWritten(slots, turns[..|turns| - 1], v, w); }
  }

  function Repeat(first: bool, n: nat): (r: seq<bool>)
    ensures |r| == n
  {
    if n == 0 then [] else Repeat(first, n - 1) + [first]
  }

  /** From `s` to `r` one call alone has done `n` writes of `x`. */
  ghost predicate RanAlone<V>(s: Race<V>, r: Race<V>, first: bool, n: nat, x: V) {
    var at := if first then s.a else s.b;
    && |r.slots| == |s.slots| && at + n <= |s.slots|
    && (if first then r.a == at + n && r.b == s.b else r.b == at + n && r.a == s.a)
    && forall i :: 0 <= i < |s.slots| ==> r.slots[i] == if at <= i < at + n then x else s.slots[i]
  }

  lemma OneMoreAlone<V>(s: Race<V>, r: Race<V>, first: bool, n: nat, v: V, w: V)
    requires RanAlone(s, r, first, n, if first then v else w) && (if first then s.a else s.b) + n < |s.slots|
    ensures RanAlone(s, Turn(r, first, v, w), first, n + 1, if first then v else w)
  {
  }

  lemma {:induction false} Solo<V>(s: Race<V>, first: bool, n: nat, v: V, w: V)
    requires (if first then s.a else s.b) + n <= |s.slots|
    ensures RanAlone(s, Raced(s, Repeat(first, n), v, w), first, n, if first then v else w)
  {
    if n != 0 {
      assert Repeat(first, n)[..n - 1] == Repeat(first, n - 1);
      Solo(s, first, n - 1, v, w);
      OneMoreAlone(s, Raced(s, Repeat(first, n - 1), v, w), first, n - 1, v, w);
    }
  }

  /** The first call writes the key, the second call everything, and the first call its copies. */
  lemma Overtaken<V>(slots: seq<V>, v: V, w: V) returns (turns: seq<bool>)
    requires |slots| >= 2 && v != w
    ensures Diverges(slots, turns, v, w)
    ensures var s := Raced(Race(slots, 0, 0), turns, v, w);
            |s.slots| == |slots| && s.slots[0] == w && forall i :: 0 < i < |slots| ==> s.slots[i] == v
  {
    var n, s := |slots|, Race(slots, 0, 0);
    var t, u, x := Repeat(true, 1), Repeat(false, n), Repeat(true, n - 1);
    Solo(s, true, 1, v, w);
    var s1 := Raced(s, t, v, w);
    Solo(s1, false, n, v, w);
    var s2 := Raced(s1, u, v, w);
    Solo(s2, true, n - 1, v, w);
    RacedInTwo(s, t, u, v, w);
    RacedInTwo(s, t + u, x, v, w);
    turns := t + u + x;
    assert Raced(s, turns, v, w).slots[1] == v;
  }

  /**
   Two overlapping calls that store different values can leave the key and its copies in
   disagreement for good exactly when there is a copy.
   */
  lemma WritersDivergeExactly<V>(slots: seq<V>, v: V, w: V)
    requires |slots| >= 1
    ensures CanDiverge(slots, v, w) <==> |slots| >= 2 && v != w
  {
    if |slots| >= 2 && v != w {
      var turns := Overtaken(slots, v, w);
      assert Diverges(slots, turns, v, w);
    } else {
      forall turns ensures !Diverges(slots, turns, v, w) { OnlyTheseWritten(slots, turns, v, w); }
    }
  }

  // ------------------------------------------------------------------
  // The replica keys of integers
  // ------------------------------------------------------------------

  /** Exclusive or, bit by bit. */
  function Xor(a: nat, b: nat): nat {
    if a == 0 && b == 0 then 0 else (a % 2 + b % 2) % 2 + 2 * Xor(a / 2, b / 2)
  }

  const MARKER: nat := 0xDB

  /** default_replica_key() for an unsigned key of 2 * `half` bits. */
  function IntegerReplica(half: nat, key: nat, idx: nat): nat {
    var word := Pow2(2 * half);
    Xor(Xor(key, (MARKER * Pow2(half)) % word), ((idx % word) * Pow2(half)) % word)
  }

  lemma XorParts(a: nat, b: nat, x: nat)
    requires x == Xor(a, b)
    ensures x / 2 == Xor(a / 2, b / 2) && x % 2 == (a % 2 + b % 2) % 2
  {
  }

  lemma SameParts(x: nat, y: nat)
    requires x / 2 == y / 2 && x % 2 == y % 2
    ensures x == y
  {
  }

  lemma ParityBack(a: nat, b: nat, x: nat)
    requires x % 2 == (a % 2 + b % 2) % 2
    ensures (x % 2 + b % 2) % 2 == a % 2
  {
  }

  lemma {:induction false} XorBack(a: nat, b: nat, x: nat, y: nat)
    requires x == Xor(a, b) && y == Xor(x, b)
    ensures y == a
    decreases a + b
  {
    if a != 0 || b != 0 {
      XorParts(a, b, x);
      XorParts(x, b, y);
      ParityBack(a, b, x);
      XorBack(a / 2, b / 2, x / 2, y / 2);
      SameParts(y, a);
    }
  }

  lemma {:induction false} XorCommutes(a: nat, b: nat)
    ensures Xor(a, b) == Xor(b, a)
  {
    if a != 0 || b != 0 { XorCommutes(a / 2, b / 2); }
  }

  lemma {:induction false} XorZero(a: nat)
    ensures Xor(a, 0) == a && Xor(0, a) == a
  {
    if a != 0 { XorZero(a / 2); }
  }

  lemma {:induction false} XorSelf(a: nat)
    ensures Xor(a, a) == 0
  {
    if a != 0 { XorSelf(a / 2); }
  }

  lemma Twice(a: nat, p: nat)
    ensures a * (2 * p) == 2 * (a * p)
  {
  }

  /** Shifted up by `n` bits, the second operand leaves the low `n` bits alone. */
  lemma {:induction false} XorHigh(high: nat, low: nat, b: nat, n: nat, word: nat, other: nat)
    requires low < Pow2(n) && word == high * Pow2(n) + low && other == b * Pow2(n)
    ensures Xor(word, other) == Xor(high, b) * Pow2(n) + low
    decreases n
  {
    if n == 0 {
      assert word == high && other == b && low == 0;
    } else {
      var p, q, bit := Pow2(n - 1), low / 2, low % 2;
      Twice(high, p);
      Twice(b, p);
      XorDouble(high * p + q, bit, b * p, word, other);
      XorHigh(high, q, b, n - 1, high * p + q, b * p);
      Twice(Xor(high, b), p);
    }
  }

  lemma XorDouble(a: nat, bit: nat, b: nat, word: nat, other: nat)
    requires bit < 2 && word == 2 * a + bit && other == 2 * b
    ensures Xor(word, other) == 2 * Xor(a, b) + bit
  {
    assert word / 2 == a && other / 2 == b;
  }

  lemma {:induction false} PowSquare(m: nat, n: nat)
    ensures Pow2(m + n) == Pow2(m) * Pow2(n)
  {
    if m != 0 { PowSquare(m - 1, n); }
  }

  lemma {:induction false} PowAtLeast(n: nat)
    requires n >= 8
    ensures Pow2(n) >= 256
  {
    if n == 8 { assert Pow2(5) == 32; } else { PowAtLeast(n - 1); }
  }

  lemma Small(a: nat, p: nat)
    requires a < p
    ensures (a * p) % (p * p) == a * p && a % (p * p) == a
  {
    assert a * p < p * p && a < p * p;
    SmallMod(a * p, p * p);
    SmallMod(a, p * p);
  }

  lemma SmallMod(a: nat, m: nat)
    requires a < m
    ensures a % m == a
  {
  }

  lemma Shifted(half: nat, a: nat)
    requires a < Pow2(half)
    ensures var word := Pow2(2 * half); (a * Pow2(half)) % word == a * Pow2(half) && a % word == a
  {
    PowSquare(half, half);
    Small(a, Pow2(half));
  }

  lemma Marked(half: nat, key: nat)
    requires half >= 8 && key < Pow2(half)
    ensures Xor(key, (MARKER * Pow2(half)) % Pow2(2 * half)) == MARKER * Pow2(half) + key
  {
    PowAtLeast(half);
    Shifted(half, MARKER);
    XorHigh(0, key, MARKER, half, key, MARKER * Pow2(half));
    XorZero(MARKER);
  }

  /** For a key in the low half, the marker and the number change the high half only. */
  lemma IntegerReplicaIs(half: nat, key: nat, idx: nat)
    requires half >= 8 && key < Pow2(half) && idx < Pow2(half)
    ensures IntegerReplica(half, key, idx) == Xor(MARKER, idx) * Pow2(half) + key
  {
    Marked(half, key);
    Shifted(half, idx);
    XorHigh(MARKER, key, idx, half, MARKER * Pow2(half) + key, idx * Pow2(half));
  }

  lemma XorMarker(i: nat, j: nat)
    ensures Xor(MARKER, i) == Xor(MARKER, j) ==> i == j
    ensures Xor(MARKER, i) == 0 <==> i == MARKER
  {
    XorCommutes(MARKER, i);
    XorCommutes(MARKER, j);
    XorBack(i, MARKER, Xor(i, MARKER), Xor(Xor(i, MARKER), MARKER));
    XorBack(j, MARKER, Xor(j, MARKER), Xor(Xor(j, MARKER), MARKER));
    XorZero(MARKER);
    XorSelf(MARKER);
  }

  function IntegerKeys(half: nat): (nat, nat) -> nat { (key, idx) => IntegerReplica(half, key, idx) }

  function LowHalf(half: nat): nat -> bool { key => key < Pow2(half) }

  lemma IntegerReplicaFresh(half: nat, k: nat, i: nat)
    requires half >= 8 && k < Pow2(half) && i < MARKER
    ensures IntegerReplica(half, k, i) >= Pow2(half)
  {
    PowAtLeast(half);
    IntegerReplicaIs(half, k, i);
    XorMarker(i, i);
    AtLeastOne(Xor(MARKER, i), Pow2(half));
  }

  lemma IntegerReplicaInjective(half: nat, k: nat, i: nat, l: nat, j: nat)
    requires half >= 8 && k < Pow2(half) && l < Pow2(half) && i < MARKER && j < MARKER
    requires IntegerReplica(half, k, i) == IntegerReplica(half, l, j)
    ensures k == l && i == j
  {
    PowAtLeast(half);
    IntegerReplicaIs(half, k, i);
    IntegerReplicaIs(half, l, j);
    SameQuotient(Xor(MARKER, i), k, Xor(MARKER, j), l, Pow2(half));
    XorMarker(i, j);
  }

  /** Integer keys of 16 bits or more, used in their low half, replicate correctly up to exactly 219 replicas. */
  lemma IntegerKeysGood(half: nat, factor: nat)
    requires half >= 8
    ensures Good(IntegerKeys(half), LowHalf(half), factor) <==> factor <= MARKER
  {
    var replica, original := IntegerKeys(half), LowHalf(half);
    if factor <= MARKER {
      forall k: nat, i: nat | original(k) && i < Numbers(factor) ensures !original(replica(k, i)) {
        IntegerReplicaFresh(half, k, i);
      }
      forall k: nat, i: nat, l: nat, j: nat |
        original(k) && original(l) && i < Numbers(factor) && j < Numbers(factor) && replica(k, i) == replica(l, j)
        ensures k == l && i == j
      {
        IntegerReplicaInjective(half, k, i, l, j);
      }
    } else {
      PowAtLeast(half);
      IntegerReplicaIs(half, 0, MARKER);
      XorSelf(MARKER);
      assert original(0) && original(replica(0, MARKER));
    }
  }

  // ------------------------------------------------------------------
  // The replica keys of strings
  // ------------------------------------------------------------------

  type Key = seq<Byte>

  /** default_replica_key() for a string: a marker byte and the number, highest byte first. */
  function StringReplica(key: Key, idx: nat): Key {
    key + [0xFF, (idx / 0x100_0000) % 256, (idx / 0x1_0000) % 256, (idx / 0x100) % 256, idx % 256]
  }

  /** Strings that do not look like replicas. */
  predicate Unmarked(key: Key) { |key| < 5 || key[|key| - 5] != 0xFF }

  function BigEndian(a: nat, b: nat, c: nat, d: nat): nat { a * 0x100_0000 + b * 0x1_0000 + c * 0x100 + d }

  /** The key, the marker byte, and the number with its highest byte first. */
  lemma StringReplicaIs(k: Key, i: nat)
    requires i < U32
    ensures var r, n := StringReplica(k, i), |k|;
            && |r| == n + 5 && r[..n] == k && r[n] == 0xFF
            && BigEndian(r[n + 1], r[n + 2], r[n + 3], r[n + 4]) == i
  {
    FourDigits(i);
  }

  lemma StringReplicaInjective(k: Key, i: nat, l: Key, j: nat)
    requires StringReplica(k, i) == StringReplica(l, j) && i < U32 && j < U32
    ensures k == l && i == j
  {
    var n := |k|;
    assert n == |l|;
    assert k == StringReplica(k, i)[..n] == StringReplica(l, j)[..n] == l;
    var a, b := StringReplica(k, i), StringReplica(l, j);
    assert a[n + 1] == b[n + 1] && a[n + 2] == b[n + 2] && a[n + 3] == b[n + 3] && a[n + 4] == b[n + 4];
    FourDigits(i);
    FourDigits(j);
  }

  lemma FourDigits(i: nat)
    requires i < U32
    ensures i == (i / 0x100_0000) % 256 * 0x100_0000 + (i / 0x1_0000) % 256 * 0x1_0000
              + (i / 0x100) % 256 * 0x100 + i % 256
  {
  }

  lemma StringReplicaMarked(k: Key, i: nat)
    ensures !Unmarked(StringReplica(k, i))
  {
    var r := StringReplica(k, i);
    assert r[|r| - 5] == 0xFF;
  }

  lemma StringsCollide()
    ensures Unmarked([]) && StringReplica([], 0) == StringReplica([], U32)
  {
  }

  /** String keys that are not marked replicate correctly up to exactly 2^32 replicas. */
  lemma StringKeysGood(factor: nat)
    ensures Good(StringReplica, Unmarked, factor) <==> factor <= U32
  {
    if factor <= U32 {
      forall k: Key, i: nat | Unmarked(k) && i < Numbers(factor) ensures !Unmarked(StringReplica(k, i)) {
        StringReplicaMarked(k, i);
      }
      forall k: Key, i: nat, l: Key, j: nat |
        Unmarked(k) && Unmarked(l) && i < Numbers(factor) && j < Numbers(factor)
        && StringReplica(k, i) == StringReplica(l, j)
        ensures k == l && i == j
      {
        StringReplicaInjective(k, i, l, j);
      }
    } else {
      StringsCollide();
    }
  }
}
