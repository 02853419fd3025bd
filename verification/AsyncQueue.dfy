/**
 The bounded queue of callback events: flush_pending() moves a thread's drained
 events into it, the worker and the final drain take them out, and one of three
 policies decides what happens when it is full.
 */
module AsyncQueue {
  import opened Seqs

  datatype Policy = DropOldest | DropNewest | Reject

  datatype Kind = Hit | Miss | Insert | Evict | Update | Expire | Rejection

  /** An event of one kind; `id` stands for its key and value. */
  datatype Event = Event(kind: Kind, id: nat)

  /** What a thread's ring gives up, one list for each kind. */
  datatype Drained = Drained(
    hits: seq<nat>, misses: seq<nat>, inserts: seq<nat>, evicts: seq<nat>, updates: seq<nat>, expires: seq<nat>,
    rejects: seq<nat>)

  function Tagged(kind: Kind, ids: seq<nat>): (r: seq<Event>)
    ensures |r| == |ids|
  {
    seq(|ids|, i requires 0 <= i < |ids| => Event(kind, ids[i]))
  }

  type Lists = seq<(Kind, seq<nat>)>

  /** The seven lists in the order in which they are queued or dispatched. */
  function InOrder(d: Drained): Lists {
    [(Hit, d.hits), (Miss, d.misses), (Insert, d.inserts), (Evict, d.evicts),
     (Update, d.updates), (Expire, d.expires), (Rejection, d.rejects)]
  }

  function Concat(lists: Lists): seq<Event> {
    if lists == [] then [] else
    var (kind, ids) := lists[|lists| - 1];
    Concat(lists[..|lists| - 1]) + Tagged(kind, ids)
  }

  function TotalSize(lists: Lists): nat {
    if lists == [] then 0 else TotalSize(lists[..|lists| - 1]) + |lists[|lists| - 1].1|
  }

  lemma {:induction false} ConcatSize(lists: Lists)
    ensures |Concat(lists)| == TotalSize(lists)
  {
    if lists != [] { ConcatSize(lists[..|lists| - 1]); }
  }

  lemma ConcatOneMore(lists: Lists, i: nat)
    requires i < |lists|
    ensures Concat(lists[..i + 1]) == Concat(lists[..i]) + Tagged(lists[i].0, lists[i].1)
    ensures TotalSize(lists[..i + 1]) == TotalSize(lists[..i]) + |lists[i].1|
  {
    assert lists[..i + 1][..i] == lists[..i];
  }

  lemma {:induction false} PrefixSize(lists: Lists, i: nat)
    requires i <= |lists|
    ensures TotalSize(lists[..i]) <= TotalSize(lists)
  {
    if i == |lists| {
      assert lists[..i] == lists;
    } else {
      PrefixSize(lists[..|lists| - 1], i);
      assert lists[..|lists| - 1][..i] == lists[..i];
    }
  }

  function Batch(d: Drained): seq<Event> { Concat(InOrder(d)) }

  /** The list of one kind. */
  function ListOf(d: Drained, kind: Kind): seq<nat> {
    match kind
    case Hit => d.hits
    case Miss => d.misses
    case Insert => d.inserts
    case Evict => d.evicts
    case Update => d.updates
    case Expire => d.expires
    case Rejection => d.rejects
  }

  /** The events of one kind, by id and in order. */
  function IdsOf(es: seq<Event>, kind: Kind): seq<nat> {
    if es == [] then [] else
    var e := es[|es| - 1];
    IdsOf(es[..|es| - 1], kind) + (if e.kind == kind then [e.id] else [])
  }

  function SizeOf(d: Drained): nat {
    |d.hits| + |d.misses| + |d.inserts| + |d.evicts| + |d.updates| + |d.expires| + |d.rejects|
  }

  lemma {:induction false} IdsOfConcat(a: seq<Event>, b: seq<Event>, kind: Kind)
    ensures IdsOf(a + b, kind) == IdsOf(a, kind) + IdsOf(b, kind)
    decreases |b|
  {
    if b == [] {
      assert a + b == a;
    } else {
      var m := |b| - 1;
      assert (a + b)[..|a + b| - 1] == a + b[..m];
      IdsOfConcat(a, b[..m], kind);
    }
  }

  lemma IdsOneMore(es: seq<Event>, e: Event, kind: Kind)
    ensures IdsOf(es + [e], kind) == IdsOf(es, kind) + (if e.kind == kind then [e.id] else [])
  {
    assert (es + [e])[..|es|] == es;
  }

  lemma {:induction false} IdsOfTagged(k: Kind, ids: seq<nat>, kind: Kind)
    ensures IdsOf(Tagged(k, ids), kind) == if k == kind then ids else []
    decreases |ids|
  {
    if ids != [] {
      var front, id := ids[..|ids| - 1], ids[|ids| - 1];
      IdsOfTagged(k, front, kind);
      IdsOneMore(Tagged(k, front), Event(k, id), kind);
      assert Tagged(k, ids) == Tagged(k, front) + [Event(k, id)];
      assert ids == front + [id];
    }
  }

  lemma {:induction false} IdsOfOthers(lists: Lists, kind: Kind)
    requires forall i :: 0 <= i < |lists| ==> lists[i].0 != kind
    ensures IdsOf(Concat(lists), kind) == []
  {
    if lists != [] {
      var m := |lists| - 1;
      IdsOfOthers(lists[..m], kind);
      IdsOfConcat(Concat(lists[..m]), Tagged(lists[m].0, lists[m].1), kind);
      IdsOfTagged(lists[m].0, lists[m].1, kind);
    }
  }

  /** The only list of its kind is all there is of that kind. */
  lemma {:induction false} IdsOfOnly(lists: Lists, kind: Kind, j: nat)
    requires j < |lists| && forall i :: 0 <= i < |lists| ==> (lists[i].0 == kind <==> i == j)
    ensures IdsOf(Concat(lists), kind) == lists[j].1
  {
    var m := |lists| - 1;
    IdsOfConcat(Concat(lists[..m]), Tagged(lists[m].0, lists[m].1), kind);
    IdsOfTagged(lists[m].0, lists[m].1, kind);
    if j == m { IdsOfOthers(lists[..m], kind); } else { IdsOfOnly(lists[..m], kind, j); }
  }

  lemma BatchHasKind(d: Drained, kind: Kind)
    ensures IdsOf(Batch(d), kind) == ListOf(d, kind)
  {
    var j := match kind case Hit => 0 case Miss => 1 case Insert => 2 case Evict => 3
                        case Update => 4 case Expire => 5 case Rejection => 6;
    IdsOfOnly(InOrder(d), kind, j);
  }

  lemma SizeOfFour(lists: Lists)
    requires |lists| >= 4
    ensures TotalSize(lists[..4]) == |lists[0].1| + |lists[1].1| + |lists[2].1| + |lists[3].1|
  {
    assert lists[..0] == [];
    ConcatOneMore(lists, 0);
    ConcatOneMore(lists, 1);
    ConcatOneMore(lists, 2);
    ConcatOneMore(lists, 3);
  }

  lemma SizeOfSeven(lists: Lists)
    requires |lists| == 7
    ensures TotalSize(lists) == |lists[0].1| + |lists[1].1| + |lists[2].1| + |lists[3].1| + |lists[4].1| + |lists[5].1|
                                + |lists[6].1|
  {
    assert lists[..7] == lists;
    SizeOfFour(lists);
    ConcatOneMore(lists, 4);
    ConcatOneMore(lists, 5);
    ConcatOneMore(lists, 6);
  }

  /** A batch is what was drained: every kind's events in their order, and no others. */
  lemma BatchIsDrained(d: Drained)
    ensures forall kind :: IdsOf(Batch(d), kind) == ListOf(d, kind)
    ensures |Batch(d)| == SizeOf(d)
  {
    forall kind ensures IdsOf(Batch(d), kind) == ListOf(d, kind) { BatchHasKind(d, kind); }
    ConcatSize(InOrder(d));
    SizeOfSeven(InOrder(d));
  }

  /** How often each event was drained. */
  lemma {:induction false} CountedOnce(es: seq<Event>, e: Event)
    ensures multiset(es)[e] == multiset(IdsOf(es, e.kind))[e.id]
  {
    if es != [] {
      var m := |es| - 1;
      CountedOnce(es[..m], e);
      assert es == es[..m] + [es[m]];
    }
  }

  /** `after` has gained just the events in the seven lists. */
  ghost predicate Gained(before: multiset<Event>, after: multiset<Event>, d: Drained) {
    && |after| == |before| + SizeOf(d)
    && forall e :: after[e] == before[e] + multiset(ListOf(d, e.kind))[e.id]
  }

  lemma GainedBatch(before: multiset<Event>, d: Drained)
    ensures Gained(before, before + multiset(Batch(d)), d)
  {
    BatchIsDrained(d);
    forall e ensures multiset(Batch(d))[e] == multiset(ListOf(d, e.kind))[e.id] {
      CountedOnce(Batch(d), e);
      BatchHasKind(d, e.kind);
    }
  }

  // ------------------------------------------------------------------
  // One push and many
  // ------------------------------------------------------------------

  predicate Full(q: seq<Event>, max: nat) { max != 0 && |q| >= max }

  function PushOne(q: seq<Event>, max: nat, policy: Policy, e: Event): seq<Event> {
    if !Full(q, max) then q + [e] else
    match policy
    case DropOldest => q[1..] + [e]
    case _ => q
  }

  function Pushed(q: seq<Event>, max: nat, policy: Policy, batch: seq<Event>): seq<Event> {
    if batch == [] then q
    else PushOne(Pushed(q, max, policy, batch[..|batch| - 1]), max, policy, batch[|batch| - 1])
  }

  function First<T>(s: seq<T>, n: nat): seq<T> { if |s| <= n then s else s[..n] }

  /** How long the queue may get; longer than the limit only if it already was. */
  function Room(q: seq<Event>, max: nat): nat { if |q| > max then |q| else max }

  /** What a whole batch does to the queue. */
  function Result(q: seq<Event>, max: nat, policy: Policy, batch: seq<Event>): seq<Event> {
    if max == 0 then q + batch
    else if policy == DropOldest then Last(q + batch, Room(q, max))
    else First(q + batch, Room(q, max))
  }

  lemma ResultOneMore(q: seq<Event>, max: nat, policy: Policy, batch: seq<Event>, e: Event)
    ensures Result(q, max, policy, batch + [e]) == PushOne(Result(q, max, policy, batch), max, policy, e)
  {
    assert q + (batch + [e]) == (q + batch) + [e];
  }

  /** Pushing one by one keeps the last, or the first, events of the old queue and the batch. */
  lemma {:induction false} PushedIsResult(q: seq<Event>, max: nat, policy: Policy, batch: seq<Event>)
    ensures Pushed(q, max, policy, batch) == Result(q, max, policy, batch)
  {
    if batch == [] {
      assert q + batch == q;
    } else {
      var front := batch[..|batch| - 1];
      PushedIsResult(q, max, policy, front);
      ResultOneMore(q, max, policy, front, batch[|batch| - 1]);
      assert batch == front + [batch[|batch| - 1]];
    }
  }

  lemma {:induction false} PushedInTwo(q: seq<Event>, max: nat, policy: Policy, a: seq<Event>, b: seq<Event>)
    ensures Pushed(Pushed(q, max, policy, a), max, policy, b) == Pushed(q, max, policy, a + b)
  {
    if b == [] {
      assert a + b == a;
    } else {
      var front := b[..|b| - 1];
      assert (a + b)[..|a + b| - 1] == a + front;
      PushedInTwo(q, max, policy, a, front);
    }
  }

  /** A batch that fits is queued whole. */
  lemma FitsWhole(q: seq<Event>, max: nat, policy: Policy, batch: seq<Event>)
    requires max == 0 || |q| + |batch| <= max
    ensures Result(q, max, policy, batch) == q + batch
  {
  }

  /** The events that a batch pushes out or fails to push in. */
  function Losses(q: seq<Event>, max: nat, policy: Policy, batch: seq<Event>): seq<Event> {
    var all, kept := q + batch, |Result(q, max, policy, batch)|;
    if policy == DropOldest then all[..|all| - kept] else all[kept..]
  }

  lemma CutInTwo(all: seq<Event>, cut: nat)
    requires cut <= |all|
    ensures multiset(all[..cut]) + multiset(all[cut..]) == multiset(all)
  {
    assert all == all[..cut] + all[cut..];
    assert multiset(all[..cut] + all[cut..]) == multiset(all[..cut]) + multiset(all[cut..]);
  }

  lemma ResultCut(q: seq<Event>, max: nat, policy: Policy, batch: seq<Event>)
    ensures var all, kept := q + batch, Result(q, max, policy, batch);
            && |kept| <= |all|
            && (policy == DropOldest ==> kept == all[|all| - |kept|..])
            && (policy != DropOldest ==> kept == all[..|kept|])
  {
  }

  lemma KeptOrLost(q: seq<Event>, max: nat, policy: Policy, batch: seq<Event>)
    ensures multiset(Result(q, max, policy, batch)) + multiset(Losses(q, max, policy, batch))
         == multiset(q) + multiset(batch)
    ensures |Result(q, max, policy, batch)| + |Losses(q, max, policy, batch)| == |q| + |batch|
  {
    var all, kept := q + batch, |Result(q, max, policy, batch)|;
    ResultCut(q, max, policy, batch);
    CutInTwo(all, if policy == DropOldest then |all| - kept else kept);
    assert multiset(all) == multiset(q) + multiset(batch);
  }

  lemma Rebalanced(q: multiset<Event>, batch: multiset<Event>, kept: multiset<Event>, losses: multiset<Event>,
                   others: multiset<Event>, lost: multiset<Event>)
    requires kept + losses == q + batch
    ensures (q + others + lost) + batch == kept + others + (lost + losses)
  {
    var x, y := (q + others + lost) + batch, kept + others + (lost + losses);
    forall e | e in x || e in y ensures x[e] == y[e] { assert (kept + losses)[e] == (q + batch)[e]; }
  }

  // ------------------------------------------------------------------
  // Order
  // ------------------------------------------------------------------

  /** `a` is `b` with some events left out. */
  ghost predicate Sub(a: seq<Event>, b: seq<Event>)
    decreases |b|
  {
    a == [] || (b != [] && ((a[|a| - 1] == b[|b| - 1] && Sub(a[..|a| - 1], b[..|b| - 1])) || Sub(a, b[..|b| - 1])))
  }

  lemma SubPush(a: seq<Event>, b: seq<Event>, e: Event)
    requires Sub(a, b)
    ensures Sub(a + [e], b + [e]) && Sub(a, b + [e])
  {
    assert (a + [e])[..|a|] == a && (b + [e])[..|b|] == b;
  }

  lemma {:induction false} SubRemove(a: seq<Event>, b: seq<Event>, i: nat)
    requires Sub(a, b) && i < |a|
    ensures Sub(a[..i] + a[i + 1..], b)
    decreases |b|
  {
    var m, n := |a| - 1, |b| - 1;
    var less := a[..i] + a[i + 1..];
    if a[m] == b[n] && Sub(a[..m], b[..n]) {
      if i == m {
        assert less == a[..m];
      } else {
        SubRemove(a[..m], b[..n], i);
        assert less[..|less| - 1] == a[..m][..i] + a[..m][i + 1..];
      }
    } else {
      SubRemove(a, b[..n], i);
    }
  }

  /** One push keeps the order of what was taken and what is queued. */
  lemma PushInOrder(taken: seq<Event>, q: seq<Event>, entered: seq<Event>, max: nat, policy: Policy, e: Event)
    requires Sub(taken + q, entered)
    ensures Sub(taken + PushOne(q, max, policy, e), entered + [e])
  {
    SubPush(taken + q, entered, e);
    if !Full(q, max) {
      assert taken + (q + [e]) == (taken + q) + [e];
    } else if policy == DropOldest {
      SubRemove(taken + q, entered, |taken|);
      assert (taken + q)[..|taken|] + (taken + q)[|taken| + 1..] == taken + q[1..];
      SubPush(taken + q[1..], entered, e);
      assert taken + (q[1..] + [e]) == (taken + q[1..]) + [e];
    }
  }

  lemma {:induction false} BatchInOrder(taken: seq<Event>, q: seq<Event>, entered: seq<Event>, max: nat, policy: Policy,
                                        batch: seq<Event>)
    requires Sub(taken + q, entered)
    ensures Sub(taken + Pushed(q, max, policy, batch), entered + batch)
  {
    if batch == [] {
      assert entered + batch == entered;
    } else {
      var front, last := batch[..|batch| - 1], batch[|batch| - 1];
      BatchInOrder(taken, q, entered, max, policy, front);
      PushInOrder(taken, Pushed(q, max, policy, front), entered + front, max, policy, last);
      assert (entered + front) + [last] == entered + batch;
    }
  }

  lemma SliceStep(all: seq<Event>, i: nat, e: Event, rest: seq<Event>, was: seq<Event>, batch: seq<Event>)
    requires i < |all| && all[i..] == [e] + rest && batch == all[..i]
    ensures rest == all[i + 1..] && batch + [e] == all[..i + 1] && (was + batch) + [e] == was + (batch + [e])
  {
    assert e == all[i];
  }

  lemma FirstMoved(q: seq<Event>, taken: seq<Event>, e: Event)
    requires q != [] && e == q[0]
    ensures q == [e] + q[1..] && taken + q == (taken + [e]) + q[1..]
    ensures multiset(q) == multiset{e} + multiset(q[1..]) && multiset(taken + [e]) == multiset(taken) + multiset{e}
  {
    assert q == [e] + q[1..];
  }

  lemma Moved<T>(q: multiset<T>, taken: multiset<T>, dispatched: multiset<T>, lost: multiset<T>, e: multiset<T>)
    ensures (e + q) + (taken + dispatched) + lost == q + ((taken + e) + dispatched) + lost
  {
  }

  // ------------------------------------------------------------------
  // Flushes that stop overtakes
  // ------------------------------------------------------------------

  /** Under Reject a batch that does not fit is refused whole. */
  predicate Refused(q: seq<Event>, max: nat, policy: Policy, batch: seq<Event>) {
    policy == Reject && max != 0 && |q| + |batch| > max
  }

  /** An empty queue keeps something of this batch. */
  predicate Queues(max: nat, policy: Policy, batch: seq<Event>) { batch != [] && !Refused([], max, policy, batch) }

  /** The queue after a flush that saw the mode on. */
  function Taken(q: seq<Event>, max: nat, policy: Policy, batch: seq<Event>): seq<Event> {
    if Refused(q, max, policy, batch) then q else Result(q, max, policy, batch)
  }

  /** The queue after the final drain and then these batches, all of flushes that saw the mode on. */
  function Late(max: nat, policy: Policy, batches: seq<seq<Event>>): seq<Event> {
    if batches == [] then []
    else Taken(Late(max, policy, batches[..|batches| - 1]), max, policy, batches[|batches| - 1])
  }

  lemma LateOneMore(max: nat, policy: Policy, batches: seq<seq<Event>>, i: nat)
    requires i < |batches|
    ensures Late(max, policy, batches[..i + 1]) == Taken(Late(max, policy, batches[..i]), max, policy, batches[i])
  {
    assert batches[..i + 1][..i] == batches[..i];
  }

  function Batches(ds: seq<Drained>): (r: seq<seq<Event>>)
    ensures |r| == |ds| && forall i :: 0 <= i < |ds| ==> r[i] == Batch(ds[i])
  {
    seq(|ds|, i requires 0 <= i < |ds| => Batch(ds[i]))
  }

  lemma ResultEmpty(q: seq<Event>, max: nat, policy: Policy, batch: seq<Event>)
    ensures Result(q, max, policy, batch) == [] <==> q == [] && batch == []
  {
    if q == [] && batch == [] {
      assert q + batch == [];
    } else {
      assert |q + batch| > 0;
    }
  }

  /** After stop the queue is empty exactly when no overtaken flush has a batch that an empty queue takes. */
  lemma {:induction false} EmptyAfterStopExactly(max: nat, policy: Policy, batches: seq<seq<Event>>)
    ensures Late(max, policy, batches) == [] <==> forall b :: b in batches ==> !Queues(max, policy, b)
  {
    if batches != [] {
      var front, last := batches[..|batches| - 1], batches[|batches| - 1];
      assert batches == front + [last];
      assert forall b :: b in batches <==> b in front || b == last;
      EmptyAfterStopExactly(max, policy, front);
      var q := Late(max, policy, front);
      ResultEmpty(q, max, policy, last);
      assert Late(max, policy, batches) == Taken(q, max, policy, last);
      if q == [] {
        assert Late(max, policy, batches) == [] <==> !Queues(max, policy, last);
      } else {
        assert Late(max, policy, batches) != [];
        assert !(forall b :: b in front ==> !Queues(max, policy, b));
      }
    }
  }

  // ------------------------------------------------------------------
  // The queue
  // ------------------------------------------------------------------

  const WORKER_BATCH: nat := 256

  class CallbackQueue {
    const max: nat               // 0 means unbounded
    const policy: Policy
    var asyncMode: bool
    var queue: seq<Event>
    var dropped: nat

    ghost var drained: multiset<Event>     // everything flush_pending() was given
    ghost var entered: seq<Event>          // of that, what was offered to the queue, in order
    ghost var taken: seq<Event>            // taken by the worker or a drain, in order
    ghost var dispatched: multiset<Event>  // dispatched synchronously
    ghost var lost: multiset<Event>        // dropped

    /** With `q` in the queue and `n` drops counted, every event is in exactly one place and in order. */
    ghost predicate Accounts(q: seq<Event>, n: nat)
      reads this
    {
      && drained == multiset(q) + (multiset(taken) + dispatched) + lost
      && |lost| == n
      && (max != 0 ==> |q| <= max)
      && Sub(taken + q, entered)
    }

    /** Every event is in exactly one place, the drops are counted, and nothing is reordered. */
    ghost predicate Valid()
      reads this
    {
      Accounts(queue, dropped)
    }

    constructor (max: nat, policy: Policy)
      ensures Valid() && this.max == max && this.policy == policy && queue == [] && dropped == 0
    {
      this.max, this.policy, asyncMode := max, policy, false;
      queue, dropped := [], 0;
      drained, entered, taken, dispatched, lost := multiset{}, [], [], multiset{}, multiset{};
    }

    /** Starts the worker: later batches go to the queue. */
    method Start()
      requires Valid()
      modifies this`asyncMode
      ensures Valid() && asyncMode
    {
      asyncMode := true;
    }

    /** stop_async_worker(): later batches are dispatched at once, and what is queued is drained. */
    method Stop() returns (batch: seq<Event>)
      requires Valid()
      modifies this`asyncMode, this`queue, this`taken
      ensures Valid() && !asyncMode
      ensures if old(asyncMode) then batch == old(queue) && queue == [] && taken == old(taken) + batch
              else batch == [] && queue == old(queue) && taken == old(taken)
    {
      if !asyncMode { return []; }
      asyncMode := false;
      batch := Drain();
    }

    /** push_event; it refuses only under Reject and only when the queue is full. */
    method PushEvent(e: Event) returns (ok: bool)
      modifies this`queue, this`dropped
      ensures queue == PushOne(old(queue), max, policy, e)
      ensures ok <==> !(policy == Reject && Full(old(queue), max))
      ensures dropped == old(dropped) + (if ok then |old(queue)| + 1 - |queue| else 0)
    {
      if max == 0 || |queue| < max {
        queue := queue + [e];
        return true;
      }
      match policy {
        case DropOldest =>
          queue := queue[1..] + [e];
          dropped := dropped + 1;
          return true;
        case DropNewest =>
          dropped := dropped + 1;
          return true;
        case Reject =>
          return false;
      }
    }

    /** One of the seven loops. The batch was seen to fit, or the policy is not Reject, so no push is refused. */
    method PushAll(kind: Kind, ids: seq<nat>)
      requires policy == Reject && max != 0 ==> |queue| + |ids| <= max
      modifies this`queue, this`dropped
      ensures queue == Pushed(old(queue), max, policy, Tagged(kind, ids))
      ensures dropped == old(dropped) + |old(queue)| + |ids| - |queue|
      ensures policy == Reject && max != 0 ==> |queue| == |old(queue)| + |ids|
    {
      ghost var batch := Tagged(kind, ids);
      for i := 0 to |ids|
        invariant queue == Pushed(old(queue), max, policy, batch[..i])
        invariant dropped == old(dropped) + |old(queue)| + i - |queue|
        invariant policy == Reject && max != 0 ==> |queue| == |old(queue)| + i
      {
        var ok := PushEvent(Event(kind, ids[i]));
        assert ok;
        assert batch[..i + 1][..i] == batch[..i];
      }
      assert batch[..|ids|] == batch;
    }

    /** The seven loops, in their order. */
    method PushBatch(lists: Lists)
      requires policy == Reject && max != 0 ==> |queue| + TotalSize(lists) <= max
      modifies this`queue, this`dropped
      ensures queue == Pushed(old(queue), max, policy, Concat(lists))
      ensures dropped == old(dropped) + |old(queue)| + TotalSize(lists) - |queue|
    {
      ghost var q := queue;
      for i := 0 to |lists|
        invariant queue == Pushed(q, max, policy, Concat(lists[..i]))
        invariant dropped == old(dropped) + |q| + TotalSize(lists[..i]) - |queue|
        invariant policy == Reject && max != 0 ==> |queue| == |q| + TotalSize(lists[..i])
      {
        ConcatOneMore(lists, i);
        PrefixSize(lists, i + 1);
        PushedInTwo(q, max, policy, Concat(lists[..i]), Tagged(lists[i].0, lists[i].1));
        PushAll(lists[i].0, lists[i].1);
      }
      assert lists[..|lists|] == lists;
    }

    /** Enters a batch that was pushed onto `q` into the books. */
    ghost method Account(q: seq<Event>, n: nat, batch: seq<Event>)
      requires Accounts(q, n) && queue == Pushed(q, max, policy, batch) && dropped == n + |q| + |batch| - |queue|
      modifies this`drained, this`entered, this`lost
      ensures Valid() && drained == old(drained) + multiset(batch)
      ensures queue == Result(q, max, policy, batch) && dropped == n + |Losses(q, max, policy, batch)|
    {
      BatchInOrder(taken, q, entered, max, policy, batch);
      PushedIsResult(q, max, policy, batch);
      KeptOrLost(q, max, policy, batch);
      ghost var losses := multiset(Losses(q, max, policy, batch));
      Rebalanced(multiset(q), multiset(batch), multiset(queue), losses, multiset(taken) + dispatched, lost);
      drained := drained + multiset(batch);
      entered := entered + batch;
      lost := lost + losses;
    }

    /** Enters a batch that is dispatched at once into the books. */
    ghost method AccountDispatched(batch: seq<Event>)
      requires Valid()
      modifies this`drained, this`dispatched
      ensures Valid() && drained == old(drained) + multiset(batch)
    {
      drained, dispatched := drained + multiset(batch), dispatched + multiset(batch);
    }

    /** The asynchronous path: what is not kept is counted as dropped. */
    method Enqueue(lists: Lists)
      requires Valid()
      requires policy == Reject && max != 0 ==> |queue| + TotalSize(lists) <= max
      modifies this`queue, this`dropped, this`drained, this`entered, this`lost
      ensures Valid() && drained == old(drained) + multiset(Concat(lists))
      ensures queue == Result(old(queue), max, policy, Concat(lists))
      ensures dropped == old(dropped) + |Losses(old(queue), max, policy, Concat(lists))|
      ensures policy == Reject ==> queue == old(queue) + Concat(lists)
    {
      ghost var q, n := queue, dropped;
      ConcatSize(lists);
      PushBatch(lists);
      Account(q, n, Concat(lists));
      if policy == Reject { FitsWhole(q, max, policy, Concat(lists)); }
    }

    /**
     flush_pending(): queues the batch under the policy, or hands all of it back to be
     dispatched synchronously.
     */
    method FlushPending(d: Drained) returns (toDispatch: seq<Event>)
      requires Valid()
      modifies this`queue, this`dropped, this`drained, this`entered, this`lost, this`dispatched
      ensures Valid() && drained == old(drained) + multiset(Batch(d))
      ensures Gained(old(drained), drained, d)
      ensures if asyncMode && !Refused(old(queue), max, policy, Batch(d)) then
                && toDispatch == [] && queue == Result(old(queue), max, policy, Batch(d))
                && dropped == old(dropped) + |Losses(old(queue), max, policy, Batch(d))|
                && (policy == Reject ==> queue == old(queue) + Batch(d))
              else toDispatch == Batch(d) && queue == old(queue) && dropped == old(dropped)
    {
      toDispatch := Flush(InOrder(d), asyncMode);
      GainedBatch(old(drained), d);
    }

    /**
     The rest of flush_pending(), under the lock, once it has loaded async_mode_ as `seen`. The
     mode may have changed in between.
     */
    method Flush(lists: Lists, seen: bool) returns (toDispatch: seq<Event>)
      requires Valid()
      modifies this`queue, this`dropped, this`drained, this`entered, this`lost, this`dispatched
      ensures Valid() && drained == old(drained) + multiset(Concat(lists))
      ensures if seen && !Refused(old(queue), max, policy, Concat(lists)) then
                && toDispatch == [] && queue == Result(old(queue), max, policy, Concat(lists))
                && dropped == old(dropped) + |Losses(old(queue), max, policy, Concat(lists))|
                && (policy == Reject ==> queue == old(queue) + Concat(lists))
              else toDispatch == Concat(lists) && queue == old(queue) && dropped == old(dropped)
    {
      ConcatSize(lists);
      if seen && !(policy == Reject && max != 0 && |queue| + TotalSize(lists) > max) {
        Enqueue(lists);
        return [];
      }
      AccountDispatched(Concat(lists));
      toDispatch := Concat(lists);
    }

    /** A flush that loaded the mode while it was on. */
    method FlushLate(d: Drained)
      requires Valid()
      modifies this`queue, this`dropped, this`drained, this`entered, this`lost, this`dispatched
      ensures Valid() && queue == Taken(old(queue), max, policy, Batch(d))
    {
      var toDispatch := Flush(InOrder(d), true);
    }

    method FlushAllLate(late: seq<Drained>, ghost batches: seq<seq<Event>>)
      requires Valid() && queue == [] && |batches| == |late|
      requires forall i :: 0 <= i < |late| ==> batches[i] == Batch(late[i])
      modifies this`queue, this`dropped, this`drained, this`entered, this`lost, this`dispatched
      ensures Valid() && queue == Late(max, policy, batches)
    {
      for i := 0 to |late|
        modifies this`queue, this`dropped, this`drained, this`entered, this`lost, this`dispatched
        invariant Valid() && queue == Late(max, policy, batches[..i])
      {
        LateOneMore(max, policy, batches, i);
        FlushLate(late[i]);
      }
      assert batches[..|late|] == batches;
    }

    /**
     stop_async_worker() overtaken by flushes that loaded the mode before it was switched off and
     take the lock after the final drain. What they queue stays there with no worker to take it.
     */
    method StopThenFlush(late: seq<Drained>) returns (batch: seq<Event>)
      requires Valid() && asyncMode
      modifies this`asyncMode, this`queue, this`taken
      modifies this`dropped, this`drained, this`entered, this`lost, this`dispatched
      ensures Valid() && !asyncMode && batch == old(queue) && queue == Late(max, policy, Batches(late))
      ensures queue == [] <==> forall b :: b in Batches(late) ==> !Queues(max, policy, b)
    {
      batch := Stop();
      FlushAllLate(late, Batches(late));
      EmptyAfterStopExactly(max, policy, Batches(late));
    }

    method TakeOne() returns (e: Event)
      requires Valid() && queue != []
      modifies this`queue, this`taken
      ensures Valid() && old(queue) == [e] + queue && taken == old(taken) + [e]
    {
      e := queue[0];
      FirstMoved(queue, taken, e);
      Moved(multiset(queue[1..]), multiset(taken), dispatched, lost, multiset{e});
      taken, queue := taken + [e], queue[1..];
    }

    /** Takes the first `n` events out of the queue, one at a time. */
    method TakeFront(n: nat) returns (batch: seq<Event>)
      requires Valid() && n <= |queue|
      modifies this`queue, this`taken
      ensures Valid() && batch == old(queue)[..n] && queue == old(queue)[n..] && taken == old(taken) + batch
    {
      ghost var all, was := queue, taken;
      batch := [];
      for i := 0 to n
        modifies this`queue, this`taken
        invariant Valid() && batch == all[..i] && queue == all[i..] && taken == was + batch
      {
        var e := TakeOne();
        SliceStep(all, i, e, queue, was, batch);
        batch := batch + [e];
      }
    }

    /** One round of async_worker_loop(): at most 256 events, oldest first. */
    method WorkerTake() returns (batch: seq<Event>)
      requires Valid()
      modifies this`queue, this`taken
      ensures Valid() && batch == First(old(queue), WORKER_BATCH) && old(queue) == batch + queue
      ensures taken == old(taken) + batch
    {
      batch := TakeFront(if |queue| < WORKER_BATCH then |queue| else WORKER_BATCH);
    }

    /** drain_async_queue(): everything. */
    method Drain() returns (batch: seq<Event>)
      requires Valid()
      modifies this`queue, this`taken
      ensures Valid() && batch == old(queue) && queue == [] && taken == old(taken) + batch
    {
      batch := TakeFront(|queue|);
    }
  }

  /** One event flushed across a stop stays queued with the mode off, whatever the limit and the policy. */
  method StrandedAfterStop(max: nat, policy: Policy, id: nat) returns (mode: bool, left: seq<Event>)
    ensures !mode && left == [Event(Hit, id)]
  {
    var q := new CallbackQueue(max, policy);
    q.Start();
    var late := Drained([id], [], [], [], [], [], []);
    OneEvent(id, late);
    StrandedAlone(max, policy, Event(Hit, id), Batches([late]));
    var batch := q.StopThenFlush([late]);
    mode, left := q.asyncMode, q.queue;
  }

  lemma OneEvent(id: nat, d: Drained)
    requires d == Drained([id], [], [], [], [], [], [])
    ensures Batch(d) == [Event(Hit, id)]
  {
    var lists := InOrder(d);
    assert lists[..7] == lists;
    ConcatOneMore(lists, 0);
    ConcatOneMore(lists, 1);
    ConcatOneMore(lists, 2);
    ConcatOneMore(lists, 3);
    ConcatOneMore(lists, 4);
    ConcatOneMore(lists, 5);
    ConcatOneMore(lists, 6);
  }

  lemma StrandedAlone(max: nat, policy: Policy, e: Event, batches: seq<seq<Event>>)
    requires batches == [[e]]
    ensures Late(max, policy, batches) == [e]
  {
    assert batches[..0] == [] && Late(max, policy, []) == [];
    assert [] + [e] == [e];
  }
}
