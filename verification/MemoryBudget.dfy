/**
 memory_monitor's hard cap: reservations taken by try_reserve(), and the
 memory_guard objects that commit them or roll them back. Every load,
 fetch_add, fetch_sub and compare-and-swap is one step, taken by any number of
 guards in any order. Admission (should_admit) may refuse at will, so it only
 decides whether a guard ever starts to reserve.
 */
module MemoryBudget {
  import opened Basics
  import opened Modular
  import opened Seqs

  const RESERVE_ATTEMPTS: nat := 8

  /**
   A guard. `d` is its byte count, `n` the attempts used. The `quiet` flags are
   history: whether no report_insert() has happened since `c` (resp. `c2`) was read.
   */
  datatype Guard =
    | Absent                                                          // none, refused, or finished
    | LoadC(d: nat, n: nat)                                           // about to load current_memory_
    | LoadR(d: nat, n: nat, c: nat, quiet: bool)                      // about to load reserved_bytes_
    | Cas(d: nat, n: nat, c: nat, r: nat, quiet: bool)                // it fits; about to CAS
    | ReC(d: nat, n: nat, quiet: bool)                                // CAS won; about to reload current_memory_
    | ReR(d: nat, n: nat, quiet: bool, c2: nat, quiet2: bool)         // about to reload reserved_bytes_
    | GiveBack(d: nat, n: nat, quiet: bool)                           // lost the race; about to return the bytes
    | Held(d: nat)                                                    // admitted
    | Half(d: nat)                                                    // commit() has reported the insert

  datatype State = State(max: nat, current: nat, reserved: nat, guards: seq<Guard>)

  datatype Action =
    | Begin(d: nat)
    | LoadCurrent
    | LoadReserved
    | CasReserve(spurious: bool)
    | ReloadCurrent
    | ReloadReserved
    | ReturnBytes
    | CommitInsert
    | CommitRelease
    | Rollback
    | MoveTo(j: nat)            // move construction into a fresh guard
    | Evict(bytes: nat)         // report_evict() of bytes that were committed

  function Plus(x: nat, d: nat): nat { (x + d) % U64 }

  function Minus(x: nat, d: nat): nat
    requires d < U64
  {
    (x + U64 - d) % U64
  }

  ghost predicate Init(s: State) {
    && s.max < U64 && s.current == 0 && s.reserved == 0
    && forall i :: 0 <= i < |s.guards| ==> s.guards[i].Absent?
  }

  predicate Enabled(s: State, i: nat, a: Action) {
    i < |s.guards| &&
    var g := s.guards[i];
    match a
    case Begin(d) => g.Absent? && d < U64
    case LoadCurrent => g.LoadC?
    case LoadReserved => g.LoadR?
    case CasReserve(_) => g.Cas?
    case ReloadCurrent => g.ReC?
    case ReloadReserved => g.ReR?
    case ReturnBytes => g.GiveBack? && g.d < U64
    case CommitInsert => g.Held?
    case CommitRelease => g.Half? && g.d < U64
    case Rollback => g.Held? && g.d < U64
    case MoveTo(j) => g.Held? && j < |s.guards| && s.guards[j].Absent?
    case Evict(bytes) => bytes <= s.current
  }

  function Goto(s: State, i: nat, g: Guard): State
    requires i < |s.guards|
  {
    s.(guards := s.guards[i := g])
  }

  /** A failed or lost attempt either retries or gives up. */
  function Retry(d: nat, n: nat): Guard {
    if n + 1 < RESERVE_ATTEMPTS then LoadC(d, n + 1) else Absent
  }

  /** A report_insert() happened: readings taken before it are no longer quiet. */
  function Disturb(g: Guard): Guard {
    match g
    case LoadR(d, n, c, _) => LoadR(d, n, c, false)
    case Cas(d, n, c, r, _) => Cas(d, n, c, r, false)
    case ReR(d, n, q, c2, _) => ReR(d, n, q, c2, false)
    case _ => g
  }

  function DisturbAll(gs: seq<Guard>): (r: seq<Guard>)
    ensures |r| == |gs| && forall i :: 0 <= i < |gs| ==> r[i] == Disturb(gs[i])
  {
    seq(|gs|, i requires 0 <= i < |gs| => Disturb(gs[i]))
  }

  function Fits(max: nat, committed: nat, reserved: nat, d: nat): bool {
    committed < max && d <= max - committed && reserved <= max - committed - d
  }

  function Apply(s: State, i: nat, a: Action): State
    requires Enabled(s, i, a)
  {
    var g := s.guards[i];
    match a
    case Begin(d) =>
      if s.max == 0 then Goto(s.(reserved := Plus(s.reserved, d)), i, Held(d)) else Goto(s, i, LoadC(d, 0))
    case LoadCurrent => Goto(s, i, LoadR(g.d, g.n, s.current, true))
    case LoadReserved =>
      if Fits(s.max, g.c, s.reserved, g.d) then Goto(s, i, Cas(g.d, g.n, g.c, s.reserved, g.quiet))
      else Goto(s, i, Absent)
    case CasReserve(spurious) =>
      if s.reserved == g.r && !spurious then Goto(s.(reserved := Plus(g.r, g.d)), i, ReC(g.d, g.n, g.quiet))
      else Goto(s, i, Retry(g.d, g.n))
    case ReloadCurrent => Goto(s, i, ReR(g.d, g.n, g.quiet, s.current, true))
    case ReloadReserved =>
      if g.c2 <= s.max && s.reserved <= s.max - g.c2 then Goto(s, i, Held(g.d))
      else Goto(s, i, GiveBack(g.d, g.n, g.quiet))
    case ReturnBytes => Goto(s.(reserved := Minus(s.reserved, g.d)), i, Retry(g.d, g.n))
    case CommitInsert =>
      Goto(s.(current := Plus(s.current, g.d), guards := DisturbAll(s.guards)), i, Half(g.d))
    case CommitRelease => Goto(s.(reserved := Minus(s.reserved, g.d)), i, Absent)
    case Rollback => Goto(s.(reserved := Minus(s.reserved, g.d)), i, Absent)
    case MoveTo(j) => Goto(Goto(s, i, Absent), j, g)
    case Evict(bytes) => s.(current := s.current - bytes)
  }

  type Step = (nat, Action)

  ghost predicate Executable(s0: State, steps: seq<Step>)
    decreases |steps|, 0
  {
    steps == [] ||
    var m := |steps| - 1;
    Executable(s0, steps[..m]) && Enabled(After(s0, steps[..m]), steps[m].0, steps[m].1)
  }

  ghost function After(s0: State, steps: seq<Step>): State
    requires Executable(s0, steps)
    decreases |steps|, 1
  {
    if steps == [] then s0
    else var m := |steps| - 1; Apply(After(s0, steps[..m]), steps[m].0, steps[m].1)
  }

  // ------------------------------------------------------------------
  // Reservation accounting
  // ------------------------------------------------------------------

  /** The bytes of reserved_bytes_ that this guard, call or half-done commit owns. */
  function Owned(g: Guard): int {
    match g
    case ReC(d, _, _) => d
    case ReR(d, _, _, _, _) => d
    case GiveBack(d, _, _) => d
    case Held(d) => d
    case Half(d) => d
    case _ => 0
  }

  ghost predicate Bytes(g: Guard) { g.Absent? || g.d < U64 }

  ghost predicate Accounted(s: State) {
    && (forall i :: 0 <= i < |s.guards| ==> Bytes(s.guards[i]))
    && s.max < U64 && s.reserved == SumBy(s.guards, Owned) % U64
    && (s.max != 0 ==> SumBy(s.guards, Owned) <= s.max)
  }

  /** How a step changes the bytes owned. */
  function OwnedDelta(s: State, i: nat, a: Action): int
    requires Enabled(s, i, a)
  {
    match a
    case Begin(d) => if s.max == 0 then d else 0
    case CasReserve(spurious) => if s.reserved == s.guards[i].r && !spurious then s.guards[i].d else 0
    case ReturnBytes => 0 - s.guards[i].d
    case CommitRelease => 0 - s.guards[i].d
    case Rollback => 0 - s.guards[i].d
    case _ => 0
  }

  lemma OwnedAfter(s: State, i: nat, a: Action)
    requires Enabled(s, i, a)
    ensures SumBy(Apply(s, i, a).guards, Owned) == SumBy(s.guards, Owned) + OwnedDelta(s, i, a)
  {
    var s' := Apply(s, i, a);
    if a.CommitInsert? {
      SumSame(s.guards, DisturbAll(s.guards), Owned);
      SumUpdate(DisturbAll(s.guards), i, s'.guards[i], Owned);
    } else if a.MoveTo? {
      SumUpdate(s.guards, i, Absent, Owned);
      SumUpdate(s.guards[i := Absent], a.j, s.guards[i], Owned);
    } else if !a.Evict? {
      SumUpdate(s.guards, i, s'.guards[i], Owned);
    }
  }

  lemma SubtractOwned(reserved: nat, sum: int, d: nat)
    requires reserved == sum % U64 && d < U64
    ensures Minus(reserved, d) == (sum - d) % U64
  {
  }

  ghost predicate Checked(s: State, g: Guard) {
    g.Cas? && s.max != 0 ==> g.c + g.r + g.d <= s.max
  }

  ghost predicate AllChecked(s: State) {
    forall i :: 0 <= i < |s.guards| ==> Checked(s, s.guards[i])
  }

  lemma AddOwned(reserved: nat, sum: int, d: nat)
    requires reserved == sum % U64
    ensures Plus(reserved, d) == (sum + d) % U64
  {
  }

  lemma BytesKept(s: State, i: nat, a: Action)
    requires Enabled(s, i, a) && forall k :: 0 <= k < |s.guards| ==> Bytes(s.guards[k])
    ensures var r := Apply(s, i, a); forall k :: 0 <= k < |r.guards| ==> Bytes(r.guards[k])
  {
    assert Bytes(s.guards[i]);
    forall k | 0 <= k < |s.guards| ensures Bytes(Apply(s, i, a).guards[k]) { assert Bytes(s.guards[k]); }
  }

  lemma ReservedAfter(s: State, i: nat, a: Action)
    requires Enabled(s, i, a) && Accounted(s)
    ensures Apply(s, i, a).reserved == (SumBy(s.guards, Owned) + OwnedDelta(s, i, a)) % U64
  {
    var g, sum := s.guards[i], SumBy(s.guards, Owned);
    match a {
      case Begin(d) => if s.max == 0 { AddOwned(s.reserved, sum, d); }
      case CasReserve(_) => AddOwned(s.reserved, sum, g.d);
      case ReturnBytes => SubtractOwned(s.reserved, sum, g.d);
      case CommitRelease => SubtractOwned(s.reserved, sum, g.d);
      case Rollback => SubtractOwned(s.reserved, sum, g.d);
      case _ => { }
    }
  }

  lemma CapAfter(s: State, i: nat, a: Action)
    requires Enabled(s, i, a) && Accounted(s) && AllChecked(s) && s.max != 0
    ensures SumBy(s.guards, Owned) + OwnedDelta(s, i, a) <= s.max
  {
    assert Bytes(s.guards[i]) && Checked(s, s.guards[i]);
    OwnedNonNegative(s.guards);
  }

  lemma OwnedNonNegative(guards: seq<Guard>)
    ensures SumBy(guards, Owned) >= 0
  {
    SumNonNegative(guards, Owned);
  }

  lemma AccountedKept(s: State, i: nat, a: Action)
    requires Enabled(s, i, a) && Accounted(s) && AllChecked(s)
    ensures Accounted(Apply(s, i, a))
  {
    OwnedAfter(s, i, a);
    BytesKept(s, i, a);
    ReservedAfter(s, i, a);
    if s.max != 0 { CapAfter(s, i, a); }
  }

  lemma AllCheckedKept(s: State, i: nat, a: Action)
    requires Enabled(s, i, a) && AllChecked(s)
    ensures AllChecked(Apply(s, i, a))
  {
    forall k | 0 <= k < |s.guards| ensures Checked(Apply(s, i, a), Apply(s, i, a).guards[k]) {
      assert Checked(s, s.guards[k]) && Checked(s, s.guards[i]);
    }
  }

  /** reserved_bytes_ is always the bytes owned by guards, undecided calls and half-done commits. */
  lemma {:induction false} ReservedIsOwned(s0: State, steps: seq<Step>)
    requires Init(s0) && Executable(s0, steps)
    ensures After(s0, steps).max == s0.max && |After(s0, steps).guards| == |s0.guards|
    ensures Accounted(After(s0, steps)) && AllChecked(After(s0, steps))
  {
    if steps == [] {
      SumZero(s0.guards, Owned);
    } else {
      var m := |steps| - 1;
      ReservedIsOwned(s0, steps[..m]);
      AccountedKept(After(s0, steps[..m]), steps[m].0, steps[m].1);
      AllCheckedKept(After(s0, steps[..m]), steps[m].0, steps[m].1);
    }
  }

  // ------------------------------------------------------------------
  // What current_memory_ is, and what a call does with its argument
  // ------------------------------------------------------------------

  /** The bytes a run has committed less those it has evicted: by guard and by report. */
  ghost function Committed(s0: State, steps: seq<Step>): int
    requires Executable(s0, steps)
  {
    if steps == [] then 0 else
    var m := |steps| - 1;
    Committed(s0, steps[..m]) +
      match steps[m].1
      case CommitInsert => After(s0, steps[..m]).guards[steps[m].0].d
      case Evict(bytes) => 0 - bytes
      case _ => 0
  }

  lemma CommittedMoves(current: nat, c: int, d: nat)
    requires Cong(current, c)
    ensures Cong(Plus(current, d), c + d) && Cong(current - d, c - d)
  {
    CongSame(d);
    CongAdd(current, c, d, d);
    CongTrans(Wrapped(current, d), current + d, c + d);
  }

  /** current_memory_ is always, modulo 2^64, the bytes committed less the bytes evicted. */
  lemma {:induction false} CurrentIsCommitted(s0: State, steps: seq<Step>)
    requires Init(s0) && Executable(s0, steps)
    ensures Cong(After(s0, steps).current, Committed(s0, steps)) && After(s0, steps).current < U64
  {
    if steps == [] {
      CongSame(0);
    } else {
      var m := |steps| - 1;
      var s, c, i, a := After(s0, steps[..m]), Committed(s0, steps[..m]), steps[m].0, steps[m].1;
      CurrentIsCommitted(s0, steps[..m]);
      if a.CommitInsert? {
        CommittedMoves(s.current, c, s.guards[i].d);
      } else if a.Evict? {
        CommittedMoves(s.current, c, a.bytes);
      }
    }
  }

  /** What the latest try_reserve() of each guard was asked for, and how often it has compared and swapped. */
  datatype Call = Call(asked: nat, swaps: nat)

  ghost function Calls(s0: State, steps: seq<Step>): (r: seq<Call>)
    ensures |r| == |s0.guards|
  {
    if steps == [] then seq(|s0.guards|, _ => Call(0, 0)) else
    var m := |steps| - 1;
    var calls, i, a := Calls(s0, steps[..m]), steps[m].0, steps[m].1;
    if i >= |calls| then calls else
    match a
    case Begin(d) => calls[i := Call(d, 0)]
    case CasReserve(_) => calls[i := calls[i].(swaps := calls[i].swaps + 1)]
    case MoveTo(j) => if j < |calls| then calls[j := calls[i]] else calls
    case _ => calls
  }

  /** The guard is about the bytes asked for, and its attempts are counted. */
  ghost predicate Serves(c: Call, g: Guard) {
    && (!g.Absent? ==> g.d == c.asked)
    && (g.LoadC? || g.LoadR? || g.Cas? ==> g.n == c.swaps < RESERVE_ATTEMPTS)
    && (g.ReC? || g.ReR? || g.GiveBack? ==> g.n + 1 == c.swaps <= RESERVE_ATTEMPTS)
  }

  lemma ServesKept(s: State, calls: seq<Call>, i: nat, a: Action, next: seq<Call>, k: nat)
    requires Enabled(s, i, a) && |calls| == |s.guards| == |next| && k < |calls|
    requires Serves(calls[k], s.guards[k]) && Serves(calls[i], s.guards[i])
    requires next == match a
                     case Begin(d) => calls[i := Call(d, 0)]
                     case CasReserve(_) => calls[i := calls[i].(swaps := calls[i].swaps + 1)]
                     case MoveTo(j) => calls[j := calls[i]]
                     case _ => calls
    ensures Serves(next[k], Apply(s, i, a).guards[k])
  {
  }

  /** In every run a guard holds, and later commits, the bytes its call asked for; a call swaps at most 8 times. */
  lemma {:induction false} CallsServed(s0: State, steps: seq<Step>)
    requires Init(s0) && Executable(s0, steps)
    ensures var s := After(s0, steps);
            |s.guards| == |s0.guards| && forall k :: 0 <= k < |s.guards| ==> Serves(Calls(s0, steps)[k], s.guards[k])
  {
    if steps != [] {
      var m := |steps| - 1;
      var s, calls := After(s0, steps[..m]), Calls(s0, steps[..m]);
      CallsServed(s0, steps[..m]);
      forall k | 0 <= k < |s.guards| ensures Serves(Calls(s0, steps)[k], After(s0, steps).guards[k]) {
        ServesKept(s, calls, steps[m].0, steps[m].1, Calls(s0, steps), k);
      }
    }
  }

  predicate InCall(g: Guard) { g.LoadC? || g.LoadR? || g.Cas? || g.ReC? || g.ReR? || g.GiveBack? }

  /** A call fails exactly where its bytes do not fit what it has read, or with its eighth attempt. */
  lemma FailsExactly(s0: State, steps: seq<Step>, i: nat, a: Action)
    requires Init(s0) && s0.max != 0 && Executable(s0, steps) && Enabled(After(s0, steps), i, a)
    requires InCall(After(s0, steps).guards[i]) && !a.Evict?
    ensures i < |s0.guards|
    ensures var s := After(s0, steps);
            var g, swaps := s.guards[i], Calls(s0, steps)[i].swaps;
            Apply(s, i, a).guards[i].Absent? <==>
              || (g.LoadR? && (g.c >= s0.max || g.c + s.reserved + g.d > s0.max))
              || (g.Cas? && swaps == 7 && (s.reserved != g.r || a == CasReserve(true)))
              || (g.GiveBack? && swaps == 8)
  {
    ReservedIsOwned(s0, steps);
    CallsServed(s0, steps);
    assert Serves(Calls(s0, steps)[i], After(s0, steps).guards[i]);
  }

  // ------------------------------------------------------------------
  // The hard cap
  // ------------------------------------------------------------------

  /** Reserved bytes that were granted against an up-to-date reading. */
  function Firm(g: Guard): int {
    match g
    case ReC(d, _, q) => if q then d else 0
    case ReR(d, _, q, _, _) => if q then d else 0
    case GiveBack(d, _, q) => if q then d else 0
    case Held(d) => d
    case _ => 0
  }

  /** A quiet reading can only be too high: nothing but evictions has happened since. */
  ghost predicate Honest(s: State, g: Guard) {
    match g
    case LoadR(_, _, c, q) => q ==> s.current <= c
    case Cas(_, _, c, _, q) => q ==> s.current <= c
    case ReR(_, _, _, c2, q2) => q2 ==> s.current <= c2
    case _ => true
  }

  ghost predicate Capped(s: State) {
    && s.current + SumBy(s.guards, Firm) <= s.max
    && forall i :: 0 <= i < |s.guards| ==> Honest(s, s.guards[i])
  }

  /** try_reserve() is about to succeed although a commit fell into both of its reading windows. */
  predicate Overtaken(s: State, i: nat, a: Action)
    requires Enabled(s, i, a)
  {
    a.ReloadReserved? && Apply(s, i, a).guards[i].Held? && !s.guards[i].quiet && !s.guards[i].quiet2
  }

  lemma HonestKept(s: State, i: nat, a: Action, k: nat)
    requires Enabled(s, i, a) && Capped(s) && k < |s.guards|
    ensures Honest(Apply(s, i, a), Apply(s, i, a).guards[k])
  {
    assert Honest(s, s.guards[k]) && Honest(s, s.guards[i]);
  }

  /** How a step changes the firm bytes, apart from granting new ones. */
  lemma FirmAfter(s: State, i: nat, a: Action)
    requires Enabled(s, i, a)
    ensures a.MoveTo? || a.Evict? ==> SumBy(Apply(s, i, a).guards, Firm) == SumBy(s.guards, Firm)
    ensures !a.MoveTo? && !a.Evict? ==>
              SumBy(Apply(s, i, a).guards, Firm)
              == SumBy(s.guards, Firm) - Firm(s.guards[i]) + Firm(Apply(s, i, a).guards[i])
  {
    var s' := Apply(s, i, a);
    if a.CommitInsert? {
      SumSame(s.guards, DisturbAll(s.guards), Firm);
      SumUpdate(DisturbAll(s.guards), i, s'.guards[i], Firm);
    } else if a.MoveTo? {
      SumUpdate(s.guards, i, Absent, Firm);
      SumUpdate(s.guards[i := Absent], a.j, s.guards[i], Firm);
    } else if !a.Evict? {
      SumUpdate(s.guards, i, s'.guards[i], Firm);
    }
  }

  lemma FirmIsReserved(s: State)
    requires Accounted(s) && s.max != 0
    ensures 0 <= SumBy(s.guards, Firm) <= s.reserved == SumBy(s.guards, Owned)
  {
    SumAtMost(s.guards, Firm, Owned);
    SumNonNegative(s.guards, Firm);
  }

  /** Granting bytes: the compare-and-swap, or a re-validation that saw no commit. */
  lemma GrantFits(s: State, i: nat, a: Action)
    requires Enabled(s, i, a) && Accounted(s) && AllChecked(s) && Capped(s) && s.max != 0
    requires a.CasReserve? || a.ReloadReserved?
    requires !Overtaken(s, i, a)
    ensures s.current + SumBy(Apply(s, i, a).guards, Firm) <= s.max
  {
    FirmAfter(s, i, a);
    AccountedKept(s, i, a);
    FirmIsReserved(s);
    FirmIsReserved(Apply(s, i, a));
    assert Honest(s, s.guards[i]) && Checked(s, s.guards[i]);
  }

  lemma SumCapKept(s: State, i: nat, a: Action)
    requires Enabled(s, i, a) && Accounted(s) && Capped(s) && s.max != 0
    requires !a.CasReserve? && !a.ReloadReserved?
    ensures Apply(s, i, a).current + SumBy(Apply(s, i, a).guards, Firm) <= s.max
  {
    FirmAfter(s, i, a);
    FirmIsReserved(s);
    SumNonNegative(s.guards, Firm);
    assert Bytes(s.guards[i]);
  }

  lemma CappedKept(s: State, i: nat, a: Action)
    requires Enabled(s, i, a) && Accounted(s) && AllChecked(s) && Capped(s) && s.max != 0
    requires !Overtaken(s, i, a)
    ensures Capped(Apply(s, i, a))
  {
    if a.CasReserve? || a.ReloadReserved? { GrantFits(s, i, a); } else { SumCapKept(s, i, a); }
    forall k | 0 <= k < |s.guards| ensures Honest(Apply(s, i, a), Apply(s, i, a).guards[k]) {
      HonestKept(s, i, a, k);
    }
  }

  /** No step of the run is an overtaken success. */
  ghost predicate NeverOvertaken(s0: State, steps: seq<Step>)
    requires Executable(s0, steps)
  {
    steps == [] ||
    var m := |steps| - 1;
    NeverOvertaken(s0, steps[..m]) && !Overtaken(After(s0, steps[..m]), steps[m].0, steps[m].1)
  }

  /**
   The hard cap at the granularity of single loads: committed memory stays within
   the budget in every interleaving in which no try_reserve() succeeds after a
   commit has fallen into both of its reading windows.
   */
  lemma {:induction false} HardCap(s0: State, steps: seq<Step>)
    requires Init(s0) && s0.max != 0 && Executable(s0, steps) && NeverOvertaken(s0, steps)
    ensures Capped(After(s0, steps)) && After(s0, steps).current <= s0.max
  {
    ReservedIsOwned(s0, steps);
    if steps == [] {
      SumZero(s0.guards, Firm);
    } else {
      var m := |steps| - 1;
      HardCap(s0, steps[..m]);
      ReservedIsOwned(s0, steps[..m]);
      CappedKept(After(s0, steps[..m]), steps[m].0, steps[m].1);
    }
    FirmIsReserved(After(s0, steps));
  }

  // ------------------------------------------------------------------
  // Commits that overlap no reservation, and one that does
  // ------------------------------------------------------------------

  predicate Reading(g: Guard) { g.LoadR? || g.Cas? || g.ReR? }

  /** Every commit's report_insert() happens while no try_reserve() call is between its loads. */
  ghost predicate NoOverlap(s0: State, steps: seq<Step>)
    requires Executable(s0, steps)
  {
    steps == [] ||
    var m := |steps| - 1;
    && NoOverlap(s0, steps[..m])
    && (steps[m].1.CommitInsert? ==>
          forall g :: g in After(s0, steps[..m]).guards ==> !Reading(g))
  }

  ghost predicate Quiet(g: Guard) {
    && (g.LoadR? || g.Cas? || g.ReC? || g.ReR? || g.GiveBack? ==> g.quiet)
    && (g.ReR? ==> g.quiet2)
  }

  lemma QuietKept(s: State, i: nat, a: Action)
    requires Enabled(s, i, a) && forall k :: 0 <= k < |s.guards| ==> Quiet(s.guards[k])
    requires a.CommitInsert? ==> forall g :: g in s.guards ==> !Reading(g)
    ensures !Overtaken(s, i, a)
    ensures forall k :: 0 <= k < |s.guards| ==> Quiet(Apply(s, i, a).guards[k])
  {
    forall k | 0 <= k < |s.guards| ensures Quiet(Apply(s, i, a).guards[k]) {
      assert Quiet(s.guards[k]) && Quiet(s.guards[i]);
      assert s.guards[k] in s.guards;
    }
  }

  lemma {:induction false} AlwaysQuiet(s0: State, steps: seq<Step>)
    requires Init(s0) && Executable(s0, steps) && NoOverlap(s0, steps)
    ensures NeverOvertaken(s0, steps)
    ensures forall k :: 0 <= k < |After(s0, steps).guards| ==> Quiet(After(s0, steps).guards[k])
  {
    if steps != [] {
      var m := |steps| - 1;
      AlwaysQuiet(s0, steps[..m]);
      QuietKept(After(s0, steps[..m]), steps[m].0, steps[m].1);
    }
  }

  function HalfDone(g: Guard): int { if g.Half? then g.d else 0 }

  lemma {:induction false} SumFirmHalf(gs: seq<Guard>)
    requires forall k :: 0 <= k < |gs| ==> Quiet(gs[k])
    ensures SumBy(gs, Owned) == SumBy(gs, Firm) + SumBy(gs, HalfDone)
  {
    if gs != [] {
      assert Quiet(gs[|gs| - 1]);
      SumFirmHalf(gs[..|gs| - 1]);
    }
  }

  /**
   Racing reservations, rollbacks and evictions keep committed plus reserved
   memory within the budget, up to commits between their two updates.
   */
  lemma CapWithoutOverlap(s0: State, steps: seq<Step>)
    requires Init(s0) && s0.max != 0 && Executable(s0, steps) && NoOverlap(s0, steps)
    ensures var s := After(s0, steps);
            s.current <= s0.max && s.current + s.reserved <= s0.max + SumBy(s.guards, HalfDone)
  {
    AlwaysQuiet(s0, steps);
    HardCap(s0, steps);
    ReservedIsOwned(s0, steps);
    FirmIsReserved(After(s0, steps));
    SumFirmHalf(After(s0, steps).guards);
  }

  lemma Extend(s0: State, steps: seq<Step>, i: nat, a: Action) returns (more: seq<Step>)
    requires Executable(s0, steps) && Enabled(After(s0, steps), i, a)
    ensures more == steps + [(i, a)] && Executable(s0, more)
    ensures After(s0, more) == Apply(After(s0, steps), i, a)
  {
    more := steps + [(i, a)];
    assert more[..|more| - 1] == steps;
  }

  /** An undisturbed call up to its compare-and-swap. */
  lemma FirstReadings(s0: State, steps: seq<Step>, i: nat, d: nat) returns (more: seq<Step>)
    requires Executable(s0, steps)
    requires var s := After(s0, steps);
             i < |s.guards| && s.guards[i] == Absent && d < U64 && s.max != 0 && Fits(s.max, s.current, s.reserved, d)
    ensures Executable(s0, more)
    ensures var s := After(s0, steps); After(s0, more) == Goto(s, i, Cas(d, 0, s.current, s.reserved, true))
  {
    var s := After(s0, steps);
    more := Extend(s0, steps, i, Begin(d));
    more := Extend(s0, more, i, LoadCurrent);
    more := Extend(s0, more, i, LoadReserved);
    assert After(s0, more).guards == s.guards[i := Cas(d, 0, s.current, s.reserved, true)];
  }

  /** An undisturbed try_reserve() of `d` bytes by guard `i`. */
  lemma ReserveUndisturbed(s0: State, steps: seq<Step>, i: nat, d: nat) returns (more: seq<Step>)
    requires Executable(s0, steps)
    requires var s := After(s0, steps);
             i < |s.guards| && s.guards[i] == Absent && s.current + s.reserved + d <= s.max < U64 && s.current < s.max
    ensures Executable(s0, more)
    ensures var s := After(s0, steps);
            After(s0, more) == s.(reserved := s.reserved + d, guards := s.guards[i := Held(d)])
  {
    var s := After(s0, steps);
    more := FirstReadings(s0, steps, i, d);
    more := Extend(s0, more, i, CasReserve(false));
    more := Extend(s0, more, i, ReloadCurrent);
    more := Extend(s0, more, i, ReloadReserved);
    assert After(s0, more).guards == s.guards[i := Held(d)];
  }

  /** An undisturbed try_reserve() that does not fit leaves everything as it was. */
  lemma RefusedUndisturbed(s0: State, steps: seq<Step>, i: nat, d: nat) returns (more: seq<Step>)
    requires Executable(s0, steps)
    requires var s := After(s0, steps);
             && i < |s.guards| && s.guards[i] == Absent && d < U64 && s.max != 0
             && (s.current >= s.max || s.current + s.reserved + d > s.max)
    ensures Executable(s0, more) && After(s0, more) == After(s0, steps)
  {
    var s := After(s0, steps);
    more := Extend(s0, steps, i, Begin(d));
    more := Extend(s0, more, i, LoadCurrent);
    more := Extend(s0, more, i, LoadReserved);
    assert After(s0, more).guards == s.guards;
  }

  /** A whole commit() by guard `i`. */
  lemma CommitAlone(s0: State, steps: seq<Step>, i: nat, d: nat) returns (more: seq<Step>)
    requires Executable(s0, steps)
    requires var s := After(s0, steps);
             i < |s.guards| && s.guards[i] == Held(d) && d <= s.reserved < U64 && s.current + d < U64
    ensures Executable(s0, more)
    ensures var s := After(s0, steps);
            After(s0, more)
            == State(s.max, s.current + d, s.reserved - d, DisturbAll(s.guards)[i := Absent])
  {
    var s := After(s0, steps);
    more := Extend(s0, steps, i, CommitInsert);
    more := Extend(s0, more, i, CommitRelease);
    assert After(s0, more).guards == DisturbAll(s.guards)[i := Absent];
  }

  /** A reservation that moves to another guard and is rolled back there leaves everything as it was. */
  lemma MovedAndRolledBack(s0: State, steps: seq<Step>, i: nat, j: nat, d: nat) returns (more: seq<Step>)
    requires Executable(s0, steps)
    requires var s := After(s0, steps);
             && i < |s.guards| && j < |s.guards| && i != j && s.guards[i] == Absent && s.guards[j] == Absent
             && s.current + s.reserved + d <= s.max < U64 && s.current < s.max
    ensures Executable(s0, more) && After(s0, more) == After(s0, steps)
  {
    var s := After(s0, steps);
    more := ReserveUndisturbed(s0, steps, i, d);
    more := Extend(s0, more, i, MoveTo(j));
    assert After(s0, more).guards == s.guards[j := Held(d)];
    more := Extend(s0, more, j, Rollback);
    assert After(s0, more).guards == s.guards;
  }

  /** Bytes that were committed and then evicted can be reserved again, by the same guard. */
  lemma EvictedIsFreeAgain(s0: State, steps: seq<Step>, i: nat, d: nat) returns (more: seq<Step>)
    requires Executable(s0, steps)
    requires var s := After(s0, steps);
             i < |s.guards| && s.guards[i] == Held(d) && d <= s.reserved && s.current + s.reserved <= s.max < U64
    requires After(s0, steps).current < After(s0, steps).max
    ensures Executable(s0, more)
    ensures var s := After(s0, steps); After(s0, more) == s.(guards := DisturbAll(s.guards))
  {
    var s := After(s0, steps);
    more := CommitAlone(s0, steps, i, d);
    more := Extend(s0, more, i, Evict(d));
    more := ReserveUndisturbed(s0, more, i, d);
    assert After(s0, more).guards == DisturbAll(s.guards);
  }

  // ------------------------------------------------------------------
  // Exactly when the cap can be overshot
  // ------------------------------------------------------------------

  ghost predicate Overshoots(s0: State, steps: seq<Step>) {
    Executable(s0, steps) && After(s0, steps).current > s0.max
  }

  ghost predicate CanOvershoot(s0: State) { exists steps :: Overshoots(s0, steps) }

  /** The state in which only the first two guards of `s0` have moved. */
  function Pair(s0: State, current: nat, reserved: nat, g: Guard, h: Guard): State
    requires |s0.guards| >= 2
  {
    State(s0.max, current, reserved, s0.guards[0 := g][1 := h])
  }

  /** A whole commit() by the second guard, while the first one stands still. */
  lemma CommitSecond(s0: State, steps: seq<Step>, current: nat, reserved: nat, g: Guard, d: nat)
    returns (more: seq<Step>)
    requires Init(s0) && |s0.guards| >= 2 && Executable(s0, steps)
    requires After(s0, steps) == Pair(s0, current, reserved, g, Held(d))
    requires d <= reserved < U64 && current + d < U64
    ensures Executable(s0, more)
    ensures After(s0, more) == Pair(s0, current + d, reserved - d, Disturb(g), Absent)
  {
    more := CommitAlone(s0, steps, 1, d);
    assert After(s0, more).guards == s0.guards[0 := Disturb(g)][1 := Absent];
  }

  /** All but one byte is committed after the first guard has read current_memory_. */
  lemma CommitInFirstWindow(s0: State) returns (steps: seq<Step>)
    requires Init(s0) && |s0.guards| >= 2 && 2 <= s0.max
    ensures Executable(s0, steps)
    ensures After(s0, steps) == Pair(s0, s0.max - 1, 0, LoadR(1, 0, 0, false), Absent)
  {
    steps := ReserveUndisturbed(s0, [], 1, s0.max - 1);
    steps := Extend(s0, steps, 0, Begin(1));
    steps := Extend(s0, steps, 0, LoadCurrent);
    assert After(s0, steps).guards == s0.guards[0 := LoadR(1, 0, 0, true)][1 := Held(s0.max - 1)];
    steps := CommitSecond(s0, steps, 0, s0.max - 1, LoadR(1, 0, 0, true), s0.max - 1);
  }

  /** The last byte is reserved twice, and committed once the first guard has re-read current_memory_. */
  lemma CommitInSecondWindow(s0: State) returns (steps: seq<Step>)
    requires Init(s0) && |s0.guards| >= 2 && 2 <= s0.max
    ensures Executable(s0, steps)
    ensures After(s0, steps) == Pair(s0, s0.max, 1, ReR(1, 0, false, s0.max - 1, false), Absent)
  {
    steps := CommitInFirstWindow(s0);
    steps := ReserveUndisturbed(s0, steps, 1, 1);
    assert After(s0, steps) == Pair(s0, s0.max - 1, 1, LoadR(1, 0, 0, false), Held(1));
    steps := Extend(s0, steps, 0, LoadReserved);
    steps := Extend(s0, steps, 0, CasReserve(false));
    steps := Extend(s0, steps, 0, ReloadCurrent);
    assert After(s0, steps) == Pair(s0, s0.max - 1, 2, ReR(1, 0, false, s0.max - 1, true), Held(1));
    steps := CommitSecond(s0, steps, s0.max - 1, 2, ReR(1, 0, false, s0.max - 1, true), 1);
  }

  /** Two guards overshoot any budget of at least two bytes, by a commit inside each window of one call. */
  lemma CapCanBeOvershot(s0: State) returns (steps: seq<Step>)
    requires Init(s0) && |s0.guards| >= 2 && 2 <= s0.max < U64 - 1
    ensures Overshoots(s0, steps) && After(s0, steps).current == s0.max + 1
  {
    steps := CommitInSecondWindow(s0);
    steps := Extend(s0, steps, 0, ReloadReserved);
    steps := Extend(s0, steps, 0, CommitInsert);
  }

  /** A lone guard commits only while it is not reading. */
  lemma {:induction false} LoneNeverOverlaps(s0: State, steps: seq<Step>)
    requires Init(s0) && |s0.guards| < 2 && Executable(s0, steps)
    ensures NoOverlap(s0, steps)
  {
    if steps != [] {
      var m := |steps| - 1;
      LoneNeverOverlaps(s0, steps[..m]);
      ReservedIsOwned(s0, steps[..m]);
    }
  }

  /** With a budget of one byte, whoever owns the byte has an up-to-date reading of current_memory_. */
  ghost predicate Current(s: State, g: Guard) {
    && (g.Held? && g.d > 0 ==> s.current == 0)
    && (g.ReR? && g.d > 0 ==> s.current <= g.c2)
  }

  lemma SoleOwner(s: State, i: nat, k: nat)
    requires Accounted(s) && s.max == 1 && i < |s.guards| && k < |s.guards|
    ensures Owned(s.guards[i]) <= s.reserved <= 1
    ensures i != k ==> Owned(s.guards[i]) + Owned(s.guards[k]) <= 1
  {
    OwnedNonNegative(s.guards);
    SumUpdate(s.guards, i, Absent, Owned);
    var rest := s.guards[i := Absent];
    OwnedNonNegative(rest);
    SumUpdate(rest, k, Absent, Owned);
    OwnedNonNegative(rest[k := Absent]);
  }

  lemma CurrentKept(s: State, i: nat, a: Action, k: nat)
    requires Enabled(s, i, a) && Accounted(s) && s.max == 1 && s.current <= 1 && k < |s.guards|
    requires Current(s, s.guards[i]) && Current(s, s.guards[k])
    ensures Apply(s, i, a).current <= 1 && Current(Apply(s, i, a), Apply(s, i, a).guards[k])
  {
    SoleOwner(s, i, k);
  }

  lemma {:induction false} OneByteIsSafe(s0: State, steps: seq<Step>)
    requires Init(s0) && s0.max == 1 && Executable(s0, steps)
    ensures var s := After(s0, steps);
            s.current <= 1 && forall k :: 0 <= k < |s.guards| ==> Current(s, s.guards[k])
  {
    if steps != [] {
      var m := |steps| - 1;
      var s, i, a := After(s0, steps[..m]), steps[m].0, steps[m].1;
      OneByteIsSafe(s0, steps[..m]);
      ReservedIsOwned(s0, steps[..m]);
      CurrentKept(s, i, a, i);
      forall k | 0 <= k < |s.guards| ensures Current(Apply(s, i, a), Apply(s, i, a).guards[k]) {
        CurrentKept(s, i, a, k);
      }
    }
  }

  lemma {:induction false} CurrentIsAWord(s0: State, steps: seq<Step>)
    requires Init(s0) && Executable(s0, steps)
    ensures After(s0, steps).current < U64
  {
    if steps != [] { CurrentIsAWord(s0, steps[..|steps| - 1]); }
  }

  /**
   Some interleaving takes committed memory past a budget exactly when two guards can
   exist and the budget is at least two bytes, and less than the largest size_t.
   */
  lemma OvershootExactly(s0: State)
    requires Init(s0) && s0.max != 0
    ensures CanOvershoot(s0) <==> |s0.guards| >= 2 && 2 <= s0.max < U64 - 1
  {
    if |s0.guards| >= 2 && 2 <= s0.max < U64 - 1 {
      var steps := CapCanBeOvershot(s0);
      assert Overshoots(s0, steps);
    } else {
      forall steps | Executable(s0, steps) ensures !Overshoots(s0, steps) {
        if |s0.guards| < 2 {
          LoneNeverOverlaps(s0, steps);
          CapWithoutOverlap(s0, steps);
        } else if s0.max == 1 {
          OneByteIsSafe(s0, steps);
        } else {
          CurrentIsAWord(s0, steps);
        }
      }
    }
  }
}
