/**
 One size class of the slab allocator: a Treiber stack of free blocks whose
 head is a (pointer, tag) pair, with its allocation counters, shared by any
 number of threads. Every atomic access of the source is one step here.

 The ABA tag is an unbounded natural: the source's 32-bit tag is assumed not to
 wrap while one thread sits between its load and its compare-and-swap.
 */
module FreeStack {
  import opened Basics
  import opened Seqs

  type Ptr = nat            // a block address; 0 is nullptr

  const COUNT_MOD: nat := 0x1_0000_0000   // free_count_ is 32 bits wide

  datatype Tagged = Tagged(ptr: Ptr, tag: nat)

  /** Where a thread stands inside allocate(), deallocate() or add_slab(). */
  datatype Pc =
    | Idle
    // allocate()
    | ALoad                                      // about to load free_list_
    | AHave(exp: Tagged)                         // loop test on `expected`
    | ARead(exp: Tagged, next: Ptr)              // head->next has been read
    | APopped(b: Ptr)                            // CAS won; free_count_ not yet updated
    | ACount(b: Ptr)                             // about to bump alloc_ops_
    | AFrees(b: Ptr, allocs: nat)                // about to load free_ops_
    | APeak(b: Ptr, live: nat)                   // about to load peak_bytes_
    | APeakCas(b: Ptr, live: nat, seen: nat)     // peak loop test and CAS
    | ARet(r: Ptr)
    // deallocate() and add_slab()
    | FCount(b: Ptr)                             // about to bump free_ops_
    | PLoad(b: Ptr)
    | PHave(b: Ptr, exp: Tagged)                 // about to store b->next
    | PStored(b: Ptr, exp: Tagged)               // about to CAS
    | PAdd                                       // about to bump free_count_
    | PRet

  datatype State = State(
    classSize: nat,
    head: Tagged,
    mem: map<Ptr, Ptr>,       // first word of every carved block
    client: set<Ptr>,         // blocks the callers own
    threads: seq<Pc>,
    freeCount: nat,
    allocOps: nat,
    freeOps: nat,
    peak: nat)

  /** What a thread does next; the arguments are the nondeterministic choices. */
  datatype Action =
    | BeginAlloc
    | Load
    | ReadNext
    | CasPop(spurious: bool)
    | SubFree
    | AddAllocs
    | LoadFrees
    | LoadPeak
    | CasPeak(spurious: bool)
    | ReturnAlloc
    | BeginFree(b: Ptr)
    | AddFrees
    | BeginCarve(b: Ptr)
    | StoreNext
    | CasPush(spurious: bool)
    | AddFree
    | ReturnPush
    | Scribble(b: Ptr, word: Ptr)       // an owner overwrites its block

  ghost predicate Init(s: State) {
    && s.head == Tagged(0, 0) && s.mem == map[] && s.client == {}
    && (forall t :: 0 <= t < |s.threads| ==> s.threads[t] == Idle)
    && s.freeCount == s.allocOps == s.freeOps == s.peak == 0
  }

  predicate Enabled(s: State, t: nat, a: Action) {
    t < |s.threads| &&
    var pc := s.threads[t];
    match a
    case BeginAlloc => pc.Idle?
    case Load => pc.ALoad? || pc.PLoad?
    case ReadNext => pc.AHave? && pc.exp.ptr in s.mem
    case CasPop(_) => pc.ARead?
    case SubFree => pc.APopped?
    case AddAllocs => pc.ACount?
    case LoadFrees => pc.AFrees?
    case LoadPeak => pc.APeak?
    case CasPeak(_) => pc.APeakCas?
    case ReturnAlloc => pc.ARet? || (pc.AHave? && pc.exp.ptr == 0)
    case BeginFree(b) => pc.Idle? && b in s.client
    case AddFrees => pc.FCount?
    case BeginCarve(b) => pc.Idle? && b != 0 && b !in s.mem
    case StoreNext => pc.PHave?
    case CasPush(_) => pc.PStored?
    case AddFree => pc.PAdd?
    case ReturnPush => pc.PRet?
    case Scribble(b, _) => b in s.client
  }

  function Goto(s: State, t: nat, pc: Pc): State
    requires t < |s.threads|
  {
    s.(threads := s.threads[t := pc])
  }

  function Apply(s: State, t: nat, a: Action): State
    requires Enabled(s, t, a)
  {
    var pc := s.threads[t];
    match a
    case BeginAlloc => Goto(s, t, ALoad)
    case Load => if pc.ALoad? then Goto(s, t, AHave(s.head)) else Goto(s, t, PHave(pc.b, s.head))
    case ReadNext => Goto(s, t, ARead(pc.exp, s.mem[pc.exp.ptr]))
    case CasPop(spurious) =>
      if s.head == pc.exp && !spurious
      then Goto(s.(head := Tagged(pc.next, pc.exp.tag + 1)), t, APopped(pc.exp.ptr))
      else Goto(s, t, AHave(s.head))
    case SubFree => Goto(s.(freeCount := (s.freeCount + COUNT_MOD - 1) % COUNT_MOD), t, ACount(pc.b))
    case AddAllocs => Goto(s.(allocOps := s.allocOps + 1), t, AFrees(pc.b, s.allocOps + 1))
    case LoadFrees =>
      Goto(s, t, APeak(pc.b, if pc.allocs > s.freeOps then pc.allocs - s.freeOps else 0))
    case LoadPeak => Goto(s, t, APeakCas(pc.b, pc.live, s.peak))
    case CasPeak(spurious) =>
      if pc.live * s.classSize <= pc.seen then Goto(s, t, ARet(pc.b))
      else if s.peak == pc.seen && !spurious
      then Goto(s.(peak := pc.live * s.classSize), t, ARet(pc.b))
      else Goto(s, t, APeakCas(pc.b, pc.live, s.peak))
    case ReturnAlloc =>
      var r := if pc.ARet? then pc.r else 0;
      Goto(s.(client := if r != 0 then s.client + {r} else s.client), t, Idle)
    case BeginFree(b) => Goto(s.(client := s.client - {b}), t, FCount(b))
    case AddFrees => Goto(s.(freeOps := s.freeOps + 1), t, PLoad(pc.b))
    case BeginCarve(b) => Goto(s.(mem := s.mem[b := 0]), t, PLoad(b))
    case StoreNext => Goto(s.(mem := s.mem[pc.b := pc.exp.ptr]), t, PStored(pc.b, pc.exp))
    case CasPush(spurious) =>
      if s.head == pc.exp && !spurious
      then Goto(s.(head := Tagged(pc.b, pc.exp.tag + 1)), t, PAdd)
      else Goto(s, t, PHave(pc.b, s.head))
    case AddFree => Goto(s.(freeCount := (s.freeCount + 1) % COUNT_MOD), t, PRet)
    case ReturnPush => Goto(s, t, Idle)
    case Scribble(b, w) => s.(mem := s.mem[b := w])
  }

  // ------------------------------------------------------------------
  // The specification: a stack whose operations take effect at one instant
  // ------------------------------------------------------------------

  datatype Op = NoOp | PopPending | PopDone(r: Ptr) | PushPending(b: Ptr) | PushDone

  datatype Spec = Spec(stack: seq<Ptr>, carved: set<Ptr>, client: set<Ptr>, ops: seq<Op>)

  datatype Label =
    | InvokePop | TakeEffectPop | RespondPop(r: Ptr)
    | InvokePush(b: Ptr) | Carve(b: Ptr) | TakeEffectPush | RespondPush
    | Internal

  ghost predicate SpecAllows(a: Spec, t: nat, l: Label) {
    && t < |a.ops|
    && match l
       case InvokePop => a.ops[t].NoOp?
       case TakeEffectPop => a.ops[t].PopPending?
       case RespondPop(r) => a.ops[t] == PopDone(r)
       case InvokePush(b) => a.ops[t].NoOp? && b in a.client
       case Carve(b) => a.ops[t].NoOp? && b != 0 && b !in a.carved
       case TakeEffectPush => a.ops[t].PushPending?
       case RespondPush => a.ops[t].PushDone?
       case Internal => true
  }

  /** One step of the atomic stack. A pop answers nullptr only if the stack is empty then. */
  ghost function SpecAfter(a: Spec, t: nat, l: Label): Spec
    requires SpecAllows(a, t, l)
  {
    match l
    case InvokePop => a.(ops := a.ops[t := PopPending])
    case TakeEffectPop =>
      if a.stack == [] then a.(ops := a.ops[t := PopDone(0)])
      else a.(stack := a.stack[1..], ops := a.ops[t := PopDone(a.stack[0])])
    case RespondPop(r) =>
      a.(client := if r != 0 then a.client + {r} else a.client, ops := a.ops[t := NoOp])
    case InvokePush(b) => a.(client := a.client - {b}, ops := a.ops[t := PushPending(b)])
    case Carve(b) => a.(carved := a.carved + {b}, ops := a.ops[t := PushPending(b)])
    case TakeEffectPush => a.(stack := [a.ops[t].b] + a.stack, ops := a.ops[t := PushDone])
    case RespondPush => a.(ops := a.ops[t := NoOp])
    case Internal => a
  }

  /** The block a pending operation holds, or 0. */
  function Held(o: Op): Ptr {
    match o
    case PopDone(r) => r
    case PushPending(b) => b
    case _ => 0
  }

  /** No carved block is in two places: the stack, a caller, or one operation. */
  ghost predicate Exclusive(a: Spec) {
    && Distinct(a.stack) && 0 !in a.stack && 0 !in a.client
    && 0 !in a.carved && a.client <= a.carved
    && (forall b :: b in a.stack ==> b in a.carved && b !in a.client)
    && (forall t :: 0 <= t < |a.ops| && Held(a.ops[t]) != 0 ==>
          && Held(a.ops[t]) in a.carved && Held(a.ops[t]) !in a.client
          && Held(a.ops[t]) !in a.stack)
    && (forall t, u :: 0 <= t < u < |a.ops| && Held(a.ops[t]) != 0 ==>
          Held(a.ops[t]) != Held(a.ops[u]))
    && (forall t :: 0 <= t < |a.ops| && a.ops[t].PushPending? ==> a.ops[t].b != 0)
  }

  /** Every carved block is in exactly one place. */
  ghost predicate Partition(a: Spec) {
    Exclusive(a) && forall b :: b in a.carved ==> b in a.stack || b in a.client || HeldBySome(a, b)
  }

  ghost predicate HeldBySome(a: Spec, b: Ptr) {
    exists t :: 0 <= t < |a.ops| && Held(a.ops[t]) == b
  }

  lemma StepKeepsHeld(a: Spec, t: nat, l: Label, b: Ptr)
    requires SpecAllows(a, t, l) && b != 0 && HeldBySome(a, b) && Partition(a)
    ensures var a' := SpecAfter(a, t, l); b in a'.stack || b in a'.client || HeldBySome(a', b)
  {
    var a' := SpecAfter(a, t, l);
    var u :| 0 <= u < |a.ops| && Held(a.ops[u]) == b;
    if u != t { assert Held(a'.ops[u]) == b; }
  }

  lemma SpecKeepsExclusive(a: Spec, t: nat, l: Label)
    requires Exclusive(a) && SpecAllows(a, t, l)
    ensures Exclusive(SpecAfter(a, t, l))
  {
    if l.TakeEffectPop? && a.stack != [] { assert a.stack == [a.stack[0]] + a.stack[1..]; }
  }

  lemma SpecKeepsPartition(a: Spec, t: nat, l: Label)
    requires Partition(a) && SpecAllows(a, t, l)
    ensures Partition(SpecAfter(a, t, l))
  {
    var a' := SpecAfter(a, t, l);
    SpecKeepsExclusive(a, t, l);
    forall b | b in a'.carved
      ensures b in a'.stack || b in a'.client || HeldBySome(a', b)
    {
      if b in a.carved && HeldBySome(a, b) { StepKeepsHeld(a, t, l, b); }
      if Held(a'.ops[t]) == b { assert HeldBySome(a', b); }
      if l.TakeEffectPop? && a.stack != [] { assert a.stack == [a.stack[0]] + a.stack[1..]; }
    }
  }

  // ------------------------------------------------------------------
  // Refinement
  // ------------------------------------------------------------------

  function AbsOp(pc: Pc): Op {
    match pc
    case Idle => NoOp
    case ALoad => PopPending
    case AHave(e) => if e.ptr == 0 then PopDone(0) else PopPending
    case ARead(_, _) => PopPending
    case APopped(b) => PopDone(b)
    case ACount(b) => PopDone(b)
    case AFrees(b, _) => PopDone(b)
    case APeak(b, _) => PopDone(b)
    case APeakCas(b, _, _) => PopDone(b)
    case ARet(r) => PopDone(r)
    case FCount(b) => PushPending(b)
    case PLoad(b) => PushPending(b)
    case PHave(b, _) => PushPending(b)
    case PStored(b, _) => PushPending(b)
    case PAdd => PushDone
    case PRet => PushDone
  }

  /** The block this thread has popped and not yet returned to its caller. */
  function PoppedBlock(pc: Pc): Option<Ptr> {
    match pc
    case APopped(b) => Some(b)
    case ACount(b) => Some(b)
    case AFrees(b, _) => Some(b)
    case APeak(b, _) => Some(b)
    case APeakCas(b, _, _) => Some(b)
    case ARet(r) => Some(r)
    case _ => None
  }

  /** Following the links from `p` visits exactly `st` and ends at nullptr. */
  ghost predicate Chain(mem: map<Ptr, Ptr>, p: Ptr, st: seq<Ptr>)
    decreases st
  {
    if st == [] then p == 0
    else p == st[0] && p in mem && Chain(mem, mem[p], st[1..])
  }

  /** A thread's snapshot of the head is never newer, and equal tags mean nothing changed. */
  ghost predicate Fresh(s: State, e: Tagged) {
    && e.tag <= s.head.tag
    && (e.tag == s.head.tag ==> e.ptr == s.head.ptr)
    && (e.ptr == 0 || e.ptr in s.mem)
  }

  ghost predicate ThreadInv(s: State, pc: Pc) {
    match pc
    case AHave(e) => Fresh(s, e)
    case ARead(e, n) =>
      Fresh(s, e) && e.ptr != 0 && e.ptr in s.mem && (e.tag == s.head.tag ==> n == s.mem[e.ptr])
    case PHave(b, e) => Fresh(s, e)
    case PStored(b, e) => Fresh(s, e) && b in s.mem && s.mem[b] == e.ptr
    case _ => PoppedBlock(pc) != Some(0)
  }

  function AbsOps(ts: seq<Pc>): (r: seq<Op>) {
    seq(|ts|, t requires 0 <= t < |ts| => AbsOp(ts[t]))
  }

  ghost predicate Refines(s: State, a: Spec) {
    && a.ops == AbsOps(s.threads)
    && a.client == s.client && a.carved == s.mem.Keys
    && Partition(a)
    && Chain(s.mem, s.head.ptr, a.stack)
    && (forall t :: 0 <= t < |s.threads| ==> ThreadInv(s, s.threads[t]))
  }

  /** The effect a concrete step has on the atomic stack. */
  function LabelOf(s: State, t: nat, a: Action): Label
    requires Enabled(s, t, a)
  {
    var pc := s.threads[t];
    match a
    case BeginAlloc => InvokePop
    case Load => if pc.ALoad? && s.head.ptr == 0 then TakeEffectPop else Internal
    case CasPop(spurious) =>
      if s.head == pc.exp && !spurious then TakeEffectPop
      else if s.head.ptr == 0 then TakeEffectPop else Internal
    case ReturnAlloc => RespondPop(if pc.ARet? then pc.r else 0)
    case BeginFree(b) => InvokePush(b)
    case BeginCarve(b) => Carve(b)
    case CasPush(spurious) => if s.head == pc.exp && !spurious then TakeEffectPush else Internal
    case ReturnPush => RespondPush
    case _ => Internal
  }

  lemma {:induction false} ChainFrame(mem: map<Ptr, Ptr>, p: Ptr, st: seq<Ptr>, b: Ptr, w: Ptr)
    requires Chain(mem, p, st) && b !in st
    ensures Chain(mem[b := w], p, st)
    decreases st
  {
    if st != [] {
      assert st[0] in st;
      ChainFrame(mem, mem[p], st[1..], b, w);
    }
  }

  lemma AbsOpsUpdate(ts: seq<Pc>, t: nat, pc: Pc)
    requires t < |ts|
    ensures AbsOps(ts[t := pc]) == AbsOps(ts)[t := AbsOp(pc)]
  {
  }

  /** No step of another thread, nor any owner's write, spoils a thread's snapshot. */
  lemma OthersStayFresh(s: State, a: Spec, t: nat, act: Action, u: nat)
    requires Refines(s, a) && Enabled(s, t, act) && u < |s.threads| && u != t
    ensures ThreadInv(Apply(s, t, act), s.threads[u])
  {
    assert ThreadInv(s, s.threads[u]) && ThreadInv(s, s.threads[t]);
    assert a.ops[t] == AbsOp(s.threads[t]) && a.ops[u] == AbsOp(s.threads[u]);
    assert s.head.ptr != 0 ==> s.head.ptr in a.stack;
  }

  lemma SelfStaysFresh(s: State, a: Spec, t: nat, act: Action)
    requires Refines(s, a) && Enabled(s, t, act)
    ensures ThreadInv(Apply(s, t, act), Apply(s, t, act).threads[t])
  {
    assert ThreadInv(s, s.threads[t]) && a.ops[t] == AbsOp(s.threads[t]);
    assert s.head.ptr != 0 ==> s.head.ptr in a.stack;
  }

  lemma ChainAfter(s: State, a: Spec, t: nat, act: Action)
    requires Refines(s, a) && Enabled(s, t, act)
    requires SpecAllows(a, t, LabelOf(s, t, act))
    ensures var s' := Apply(s, t, act);
            Chain(s'.mem, s'.head.ptr, SpecAfter(a, t, LabelOf(s, t, act)).stack)
  {
    var pc := s.threads[t];
    assert ThreadInv(s, pc) && a.ops[t] == AbsOp(pc);
    match act {
      case Scribble(b, w) => ChainFrame(s.mem, s.head.ptr, a.stack, b, w);
      case BeginCarve(b) => ChainFrame(s.mem, s.head.ptr, a.stack, b, 0);
      case StoreNext => ChainFrame(s.mem, s.head.ptr, a.stack, pc.b, pc.exp.ptr);
      case _ =>
    }
  }

  lemma StepAllowed(s: State, a: Spec, t: nat, act: Action)
    requires Refines(s, a) && Enabled(s, t, act)
    ensures SpecAllows(a, t, LabelOf(s, t, act))
  {
    assert a.ops[t] == AbsOp(s.threads[t]) && ThreadInv(s, s.threads[t]);
  }

  lemma OwnOpAfter(s: State, a: Spec, t: nat, act: Action)
    requires Enabled(s, t, act) && SpecAllows(a, t, LabelOf(s, t, act))
    requires a.ops[t] == AbsOp(s.threads[t]) && ThreadInv(s, s.threads[t]) && 0 !in s.mem
    requires if s.head.ptr == 0 then a.stack == [] else a.stack != [] && a.stack[0] == s.head.ptr
    ensures SpecAfter(a, t, LabelOf(s, t, act)).ops == a.ops[t := AbsOp(Apply(s, t, act).threads[t])]
  {
  }

  lemma OneThreadMoves(s: State, t: nat, act: Action)
    requires Enabled(s, t, act)
    ensures Apply(s, t, act).threads == s.threads[t := Apply(s, t, act).threads[t]]
  {
  }

  lemma OpsAfter(s: State, a: Spec, t: nat, act: Action)
    requires Refines(s, a) && Enabled(s, t, act)
    requires SpecAllows(a, t, LabelOf(s, t, act))
    ensures SpecAfter(a, t, LabelOf(s, t, act)).ops == AbsOps(Apply(s, t, act).threads)
  {
    assert a.ops[t] == AbsOp(s.threads[t]) && ThreadInv(s, s.threads[t]);
    OwnOpAfter(s, a, t, act);
    OneThreadMoves(s, t, act);
    AbsOpsUpdate(s.threads, t, Apply(s, t, act).threads[t]);
  }

  lemma BookkeepingAfter(s: State, a: Spec, t: nat, act: Action)
    requires Refines(s, a) && Enabled(s, t, act)
    requires SpecAllows(a, t, LabelOf(s, t, act))
    ensures var s', a' := Apply(s, t, act), SpecAfter(a, t, LabelOf(s, t, act));
            a'.ops == AbsOps(s'.threads) && a'.client == s'.client && a'.carved == s'.mem.Keys
  {
    OpsAfter(s, a, t, act);
    assert a.ops[t] == AbsOp(s.threads[t]) && ThreadInv(s, s.threads[t]);
  }

  /** The ABA argument: every concrete step is one step of the atomic stack. */
  lemma StepRefines(s: State, a: Spec, t: nat, act: Action)
    requires Refines(s, a) && Enabled(s, t, act)
    ensures SpecAllows(a, t, LabelOf(s, t, act))
    ensures Refines(Apply(s, t, act), SpecAfter(a, t, LabelOf(s, t, act)))
  {
    StepAllowed(s, a, t, act);
    BookkeepingAfter(s, a, t, act);
    ChainAfter(s, a, t, act);
    SpecKeepsPartition(a, t, LabelOf(s, t, act));
    var s' := Apply(s, t, act);
    forall u | 0 <= u < |s'.threads| ensures ThreadInv(s', s'.threads[u]) {
      if u == t { SelfStaysFresh(s, a, t, act); } else { OthersStayFresh(s, a, t, act, u); }
    }
  }

  // ------------------------------------------------------------------
  // The counters
  // ------------------------------------------------------------------

  /** Handed out, and the return not counted yet. */
  predicate HoldsOut(pc: Pc) { PoppedBlock(pc).Some? || pc.FCount? }

  /** Handed out and counted in alloc_ops_, the return not counted yet. */
  predicate CountedOut(pc: Pc) { HoldsOut(pc) && !pc.APopped? && !pc.ACount? }

  predicate IsPopped(pc: Pc) { pc.APopped? }

  predicate IsPAdd(pc: Pc) { pc.PAdd? }

  /** Blocks handed out whose return has not been counted. */
  ghost function Outstanding(s: State): nat {
    |s.client| + CountIf(s.threads, HoldsOut)
  }

  ghost predicate LiveAgrees(s: State) {
    s.allocOps == s.freeOps + |s.client| + CountIf(s.threads, CountedOut)
  }

  /** The steps that move a block between callers and threads, or count it. */
  predicate MovesLive(act: Action) { act.ReturnAlloc? || act.BeginFree? || act.AddAllocs? || act.AddFrees? }

  lemma OthersKeepLive(s: State, t: nat, act: Action)
    requires Enabled(s, t, act) && !MovesLive(act)
    ensures var s' := Apply(s, t, act);
            && s'.allocOps == s.allocOps && s'.freeOps == s.freeOps && s'.client == s.client
            && CountedOut(s'.threads[t]) == CountedOut(s.threads[t])
  {
  }

  lemma MovedLive(s: State, t: nat, act: Action)
    requires Enabled(s, t, act) && MovesLive(act)
    requires s.threads[t].ARet? ==> s.threads[t].r != 0 && s.threads[t].r !in s.client
    ensures var s' := Apply(s, t, act);
            && s'.allocOps - s'.freeOps - |s'.client| - (if CountedOut(s'.threads[t]) then 1 else 0)
            == s.allocOps - s.freeOps - |s.client| - (if CountedOut(s.threads[t]) then 1 else 0)
  {
  }

  lemma LiveKept(s: State, t: nat, act: Action)
    requires Enabled(s, t, act) && LiveAgrees(s)
    requires s.threads[t].ARet? ==> s.threads[t].r != 0 && s.threads[t].r !in s.client
    ensures LiveAgrees(Apply(s, t, act))
  {
    OneThreadMoves(s, t, act);
    CountUpdate(s.threads, t, Apply(s, t, act).threads[t], CountedOut);
    if MovesLive(act) { MovedLive(s, t, act); } else { OthersKeepLive(s, t, act); }
  }

  /** How a step changes the length of the free list. */
  function StackDelta(s: State, t: nat, act: Action): int
    requires Enabled(s, t, act)
  {
    match act
    case CasPop(spurious) => if s.head == s.threads[t].exp && !spurious then -1 else 0
    case CasPush(spurious) => if s.head == s.threads[t].exp && !spurious then 1 else 0
    case _ => 0
  }

  lemma StackLength(s: State, a: Spec, t: nat, act: Action)
    requires Refines(s, a) && Enabled(s, t, act) && SpecAllows(a, t, LabelOf(s, t, act))
    ensures |SpecAfter(a, t, LabelOf(s, t, act)).stack| == |a.stack| + StackDelta(s, t, act)
  {
    assert ThreadInv(s, s.threads[t]) && a.ops[t] == AbsOp(s.threads[t]);
  }

  /** What free_count_ still has to lose and gain, less the length of the free list. */
  ghost function Pending(s: State, free: int): int {
    CountIf(s.threads, IsPAdd) - CountIf(s.threads, IsPopped) - free
  }

  /** free_count_ is exact up to the updates still to come, modulo its width. */
  ghost predicate FreeCountAgrees(s: State, free: int) {
    s.freeCount < COUNT_MOD && (s.freeCount + Pending(s, free)) % COUNT_MOD == 0
  }

  lemma PendingAfter(s: State, free: int, t: nat, act: Action)
    requires Enabled(s, t, act)
    ensures Pending(Apply(s, t, act), free + StackDelta(s, t, act))
         == Pending(s, free) + (if act.SubFree? then 1 else if act.AddFree? then -1 else 0)
  {
    var pc := Apply(s, t, act).threads[t];
    CountUpdate(s.threads, t, pc, IsPopped);
    CountUpdate(s.threads, t, pc, IsPAdd);
    assert act.Scribble? ==> s.threads[t := pc] == s.threads;
  }

  lemma FreeCountKept(s: State, free: int, t: nat, act: Action)
    requires Enabled(s, t, act) && FreeCountAgrees(s, free)
    ensures FreeCountAgrees(Apply(s, t, act), free + StackDelta(s, t, act))
  {
    PendingAfter(s, free, t, act);
    assert Apply(s, t, act).freeCount
        == (s.freeCount + (if act.SubFree? then COUNT_MOD - 1 else if act.AddFree? then 1 else 0)) % COUNT_MOD;
  }

  /** This thread will still raise the peak to cover every counted block. */
  ghost predicate Raising(s: State, pc: Pc) {
    match pc
    case AFrees(_, allocs) => allocs == s.allocOps
    case APeak(_, live) => live + s.freeOps >= s.allocOps
    case APeakCas(_, live, _) => live + s.freeOps >= s.allocOps
    case _ => false
  }

  ghost predicate PeakCovers(s: State) {
    && (forall t :: 0 <= t < |s.threads| && s.threads[t].APeakCas? ==> s.threads[t].seen <= s.peak)
    && (s.peak >= (s.allocOps - s.freeOps) * s.classSize
        || exists t :: 0 <= t < |s.threads| && Raising(s, s.threads[t]))
  }

  lemma Scaled(x: int, y: int, c: nat)
    requires x <= y
    ensures x * c <= y * c
  {
  }

  lemma PeakCoversKept(s: State, t: nat, act: Action)
    requires Enabled(s, t, act) && PeakCovers(s)
    ensures PeakCovers(Apply(s, t, act))
  {
    var s' := Apply(s, t, act);
    if u :| 0 <= u < |s.threads| && Raising(s, s.threads[u]) {
      if u != t && !act.AddAllocs? { assert Raising(s', s'.threads[u]); }
      if u == t && act.CasPeak? { Scaled(s.allocOps - s.freeOps, s.threads[t].live, s.classSize); }
      if u == t && !s'.threads[t].ARet? { assert Raising(s', s'.threads[t]); }
    } else {
      Scaled(s'.allocOps - s'.freeOps, s.allocOps - s.freeOps + (if act.AddAllocs? then 1 else 0), s.classSize);
    }
    if act.AddAllocs? { assert Raising(s', s'.threads[t]); }
  }

  ghost predicate PeakWithin(s: State, bound: nat) {
    && s.peak <= bound * s.classSize
    && forall t :: 0 <= t < |s.threads| && (s.threads[t].APeak? || s.threads[t].APeakCas?) ==>
         s.threads[t].live <= bound
  }

  lemma PeakWithinKept(s: State, t: nat, act: Action, bound: nat)
    requires Enabled(s, t, act) && PeakWithin(s, bound)
    requires s.threads[t].AFrees? ==> s.threads[t].allocs - s.freeOps <= bound
    ensures PeakWithin(Apply(s, t, act), bound)
  {
    if act.CasPeak? { Scaled(s.threads[t].live, bound, s.classSize); }
  }

  ghost predicate AllocsSeen(s: State) {
    forall t :: 0 <= t < |s.threads| && s.threads[t].AFrees? ==> s.threads[t].allocs <= s.allocOps
  }

  lemma PopperOwnsBlock(s: State, a: Spec, t: nat)
    requires Refines(s, a) && t < |s.threads|
    ensures s.threads[t].ARet? ==> s.threads[t].r != 0 && s.threads[t].r !in s.client
  {
    assert ThreadInv(s, s.threads[t]) && a.ops[t] == AbsOp(s.threads[t]);
  }

  ghost predicate CountersAgree(s: State, free: nat) {
    LiveAgrees(s) && FreeCountAgrees(s, free) && PeakCovers(s) && AllocsSeen(s)
  }

  lemma CountersKept(s: State, a: Spec, t: nat, act: Action)
    requires Refines(s, a) && Enabled(s, t, act) && SpecAllows(a, t, LabelOf(s, t, act))
    requires CountersAgree(s, |a.stack|)
    ensures CountersAgree(Apply(s, t, act), |SpecAfter(a, t, LabelOf(s, t, act)).stack|)
  {
    StackLength(s, a, t, act);
    PopperOwnsBlock(s, a, t);
    LiveKept(s, t, act);
    FreeCountKept(s, |a.stack|, t, act);
    PeakCoversKept(s, t, act);
    AllocsSeenKept(s, t, act);
  }

  lemma AllocsSeenKept(s: State, t: nat, act: Action)
    requires Enabled(s, t, act) && AllocsSeen(s)
    ensures AllocsSeen(Apply(s, t, act))
  {
  }

  // ------------------------------------------------------------------
  // Every run
  // ------------------------------------------------------------------

  type Step = (nat, Action)

  /** `steps` is an interleaving that can happen from `s0`. */
  ghost predicate Executable(s0: State, steps: seq<Step>)
    decreases |steps|, 0
  {
    steps == [] ||
    var m := |steps| - 1;
    Executable(s0, steps[..m]) && Enabled(After(s0, steps[..m]), steps[m].0, steps[m].1)
  }

  ghost function After(s0: State, steps: seq<Step>): State
    requires Executable(s0, steps)
    decreases |steps|, 1
  {
    if steps == [] then s0
    else var m := |steps| - 1; Apply(After(s0, steps[..m]), steps[m].0, steps[m].1)
  }

  /** The calls, answers and effects of an interleaving, in order. */
  ghost function History(s0: State, steps: seq<Step>): seq<(nat, Label)>
    requires Executable(s0, steps)
  {
    if steps == [] then []
    else
      var m := |steps| - 1;
      History(s0, steps[..m]) + [(steps[m].0, LabelOf(After(s0, steps[..m]), steps[m].0, steps[m].1))]
  }

  ghost function SpecInit(n: nat): Spec {
    Spec([], {}, {}, seq(n, _ => NoOp))
  }

  /** The atomic stack can perform exactly these labels. */
  ghost predicate Accepts(a0: Spec, h: seq<(nat, Label)>)
    decreases |h|, 0
  {
    h == [] ||
    var m := |h| - 1;
    Accepts(a0, h[..m]) && SpecAllows(SpecRun(a0, h[..m]), h[m].0, h[m].1)
  }

  ghost function SpecRun(a0: Spec, h: seq<(nat, Label)>): Spec
    requires Accepts(a0, h)
    decreases |h|, 1
  {
    if h == [] then a0
    else var m := |h| - 1; SpecAfter(SpecRun(a0, h[..m]), h[m].0, h[m].1)
  }

  lemma InitRefines(s0: State)
    requires Init(s0)
    ensures Refines(s0, SpecInit(|s0.threads|)) && CountersAgree(s0, 0)
  {
    CountNone(s0.threads, CountedOut);
    CountNone(s0.threads, IsPAdd);
    CountNone(s0.threads, IsPopped);
  }

  lemma AcceptsOneMore(a0: Spec, h: seq<(nat, Label)>, t: nat, l: Label)
    requires Accepts(a0, h) && SpecAllows(SpecRun(a0, h), t, l)
    ensures Accepts(a0, h + [(t, l)])
    ensures SpecRun(a0, h + [(t, l)]) == SpecAfter(SpecRun(a0, h), t, l)
  {
    assert (h + [(t, l)])[..|h|] == h;
  }

  /** Linearizability: every interleaving's history is one of the atomic stack. */
  lemma {:induction false} Linearizable(s0: State, steps: seq<Step>)
    requires Init(s0) && Executable(s0, steps)
    ensures Accepts(SpecInit(|s0.threads|), History(s0, steps))
    ensures Refines(After(s0, steps), SpecRun(SpecInit(|s0.threads|), History(s0, steps)))
    ensures CountersAgree(After(s0, steps), |SpecRun(SpecInit(|s0.threads|), History(s0, steps)).stack|)
  {
    if steps == [] {
      InitRefines(s0);
    } else {
      var m := |steps| - 1;
      Linearizable(s0, steps[..m]);
      var s, h := After(s0, steps[..m]), History(s0, steps[..m]);
      var a := SpecRun(SpecInit(|s0.threads|), h);
      StepRefines(s, a, steps[m].0, steps[m].1);
      CountersKept(s, a, steps[m].0, steps[m].1);
      AcceptsOneMore(SpecInit(|s0.threads|), h, steps[m].0, LabelOf(s, steps[m].0, steps[m].1));
    }
  }

  /** A block being handed to a caller is owned by no one else and is not free. */
  lemma NeverHandedOutTwice(s0: State, steps: seq<Step>, t: nat) returns (stack: seq<Ptr>)
    requires Init(s0) && Executable(s0, steps)
    requires t < |After(s0, steps).threads| && PoppedBlock(After(s0, steps).threads[t]).Some?
    ensures var s := After(s0, steps);
            Chain(s.mem, s.head.ptr, stack) && Distinct(stack)
    ensures var s := After(s0, steps);
            var b := PoppedBlock(s.threads[t]).value;
            && b in s.mem && b !in s.client && b !in stack
            && forall u :: 0 <= u < |s.threads| && u != t ==> Held(AbsOp(s.threads[u])) != b
  {
    Linearizable(s0, steps);
    var a := SpecRun(SpecInit(|s0.threads|), History(s0, steps));
    var s := After(s0, steps);
    stack := a.stack;
    var b := PoppedBlock(s.threads[t]).value;
    assert ThreadInv(s, s.threads[t]) && Held(a.ops[t]) == b;
    forall u | 0 <= u < |s.threads| && u != t ensures Held(AbsOp(s.threads[u])) != b {
      assert a.ops[u] == AbsOp(s.threads[u]);
    }
  }

  /** A step that leaves a thread with a null snapshot has just read a null head. */
  lemma SeesNull(s: State, t: nat, act: Action)
    requires Enabled(s, t, act) && !act.Scribble?
    requires var pc := Apply(s, t, act).threads[t]; pc.AHave? && pc.exp.ptr == 0
    ensures Apply(s, t, act).head.ptr == 0 && !act.BeginAlloc?
  {
  }

  /**
   allocate() answers nullptr only if the free list was empty at some instant of
   the call: after some step `k` later than the one that began it.
   */
  lemma {:induction false} NullMeansEmpty(s0: State, steps: seq<Step>, i: nat, t: nat) returns (k: nat)
    requires Executable(s0, steps) && i < |steps| && steps[i] == (t, BeginAlloc)
    requires var s := After(s0, steps);
             t < |s.threads| && s.threads[t].AHave? && s.threads[t].exp.ptr == 0
    ensures i < k <= |steps| && Executable(s0, steps[..k]) && After(s0, steps[..k]).head.ptr == 0
    decreases |steps|
  {
    var m := |steps| - 1;
    var (u, act) := steps[m];
    assert steps[..|steps|] == steps;
    if u == t && !act.Scribble? {
      k := |steps|;
      SeesNull(After(s0, steps[..m]), t, act);
    } else {
      k := NullMeansEmpty(s0, steps[..m], i, t);
      assert steps[..m][..k] == steps[..k];
    }
  }

  lemma LiveAtMostOutstanding(s0: State, steps: seq<Step>)
    requires Init(s0) && Executable(s0, steps)
    ensures var s := After(s0, steps);
            s.allocOps - s.freeOps <= Outstanding(s) && AllocsSeen(s)
  {
    Linearizable(s0, steps);
    CountMonotone(After(s0, steps).threads, CountedOut, HoldsOut);
  }

  lemma {:induction false} CountersGrow(s0: State, early: seq<Step>, late: seq<Step>)
    requires Executable(s0, late) && early <= late
    ensures Executable(s0, early)
    ensures After(s0, early).allocOps <= After(s0, late).allocOps
    ensures After(s0, early).freeOps <= After(s0, late).freeOps
    decreases |late|
  {
    if |early| == |late| {
      assert early == late;
    } else {
      CountersGrow(s0, early, late[..|late| - 1]);
    }
  }

  /**
   A snapshot that reads alloc_ops_ at one instant and free_ops_ at a later one
   never reports more live blocks than were handed out at any instant between.
   */
  lemma LiveNeverOvercounts(s0: State, first: seq<Step>, between: seq<Step>, second: seq<Step>)
    requires Init(s0) && Executable(s0, second) && first <= between <= second
    ensures Executable(s0, first) && Executable(s0, between)
    ensures After(s0, first).allocOps - After(s0, second).freeOps <= Outstanding(After(s0, between))
  {
    CountersGrow(s0, between, second);
    CountersGrow(s0, first, between);
    LiveAtMostOutstanding(s0, between);
  }

  /** peak_bytes_ never exceeds the historical peak: any bound on the blocks out at all times bounds it. */
  lemma {:induction false} PeakNeverOverstates(s0: State, steps: seq<Step>, bound: nat)
    requires Init(s0) && Executable(s0, steps)
    requires forall k :: 0 <= k <= |steps| && Executable(s0, steps[..k]) ==>
               Outstanding(After(s0, steps[..k])) <= bound
    ensures PeakWithin(After(s0, steps), bound)
  {
    if steps != [] {
      var m := |steps| - 1;
      var s := After(s0, steps[..m]);
      forall k | 0 <= k <= m && Executable(s0, steps[..m][..k])
        ensures Outstanding(After(s0, steps[..m][..k])) <= bound
      {
        assert steps[..m][..k] == steps[..k];
      }
      PeakNeverOverstates(s0, steps[..m], bound);
      LiveAtMostOutstanding(s0, steps[..m]);
      PeakWithinKept(s, steps[m].0, steps[m].1, bound);
    }
  }

  lemma IdlePartition(s: State, a: Spec)
    requires Refines(s, a)
    requires forall t :: 0 <= t < |s.threads| ==> s.threads[t].Idle?
    ensures (set b | b in a.stack) !! s.client
    ensures s.mem.Keys == (set b | b in a.stack) + s.client
  {
    assert forall t :: 0 <= t < |a.ops| ==> a.ops[t] == AbsOp(s.threads[t]);
    assert forall b :: b in a.carved ==> !HeldBySome(a, b);
  }

  lemma IdleCounters(s: State, free: nat)
    requires CountersAgree(s, free)
    requires forall t :: 0 <= t < |s.threads| ==> s.threads[t].Idle?
    ensures s.allocOps - s.freeOps == |s.client|
    ensures s.freeCount == free % COUNT_MOD
    ensures s.peak >= |s.client| * s.classSize
  {
    CountNone(s.threads, CountedOut);
    CountNone(s.threads, IsPAdd);
    CountNone(s.threads, IsPopped);
  }

  /** With every thread idle, the counters and the free list are exact and the peak covers what is live. */
  lemma QuiescentCountersExact(s0: State, steps: seq<Step>) returns (stack: seq<Ptr>)
    requires Init(s0) && Executable(s0, steps)
    requires forall t :: 0 <= t < |After(s0, steps).threads| ==> After(s0, steps).threads[t].Idle?
    ensures var s := After(s0, steps);
            && Chain(s.mem, s.head.ptr, stack) && Distinct(stack)
            && (set b | b in stack) !! s.client
            && s.mem.Keys == (set b | b in stack) + s.client
            && s.allocOps - s.freeOps == |s.client|
            && s.freeCount == |stack| % COUNT_MOD
            && s.peak >= |s.client| * s.classSize
  {
    Linearizable(s0, steps);
    stack := SpecRun(SpecInit(|s0.threads|), History(s0, steps)).stack;
    IdlePartition(After(s0, steps), SpecRun(SpecInit(|s0.threads|), History(s0, steps)));
    IdleCounters(After(s0, steps), |stack|);
  }
}
