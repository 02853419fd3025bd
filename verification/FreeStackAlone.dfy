/**
 What allocate() and deallocate() of one size class do when nobody interferes, from
 any state another thread may have left, and that a block's owner finds in it what it
 last wrote whatever the other threads do.
 */
module FreeStackAlone {
  import opened Basics
  import opened FreeStack

  lemma Extend(s: State, steps: seq<Step>, t: nat, a: Action) returns (more: seq<Step>)
    requires Executable(s, steps) && Enabled(After(s, steps), t, a)
    ensures more == steps + [(t, a)] && Executable(s, more)
    ensures After(s, more) == Apply(After(s, steps), t, a)
  {
    more := steps + [(t, a)];
    assert more[..|more| - 1] == steps;
  }

  // ------------------------------------------------------------------
  // One call
  // ------------------------------------------------------------------

  /** The live blocks as the counters show them just after one more allocation. */
  function LiveNow(s: State): nat { if s.allocOps + 1 > s.freeOps then s.allocOps + 1 - s.freeOps else 0 }

  function Larger(a: nat, b: nat): nat { if a > b then a else b }

  /** The state after allocate() has taken the block at the head. */
  function Popped(s: State): State
    requires s.head.ptr in s.mem
  {
    s.(head := Tagged(s.mem[s.head.ptr], s.head.tag + 1), client := s.client + {s.head.ptr},
       freeCount := (s.freeCount + COUNT_MOD - 1) % COUNT_MOD, allocOps := s.allocOps + 1,
       peak := Larger(s.peak, LiveNow(s) * s.classSize))
  }

  /** The state after deallocate() has put `b` back. */
  function Pushed(s: State, b: Ptr): State {
    s.(head := Tagged(b, s.head.tag + 1), mem := s.mem[b := s.head.ptr], client := s.client - {b},
       freeCount := (s.freeCount + 1) % COUNT_MOD, freeOps := s.freeOps + 1)
  }

  lemma PopTaken(s: State, t: nat) returns (steps: seq<Step>)
    requires t < |s.threads| && s.threads[t] == Idle && s.head.ptr != 0 && s.head.ptr in s.mem
    ensures Executable(s, steps)
    ensures After(s, steps)
         == Goto(s.(head := Tagged(s.mem[s.head.ptr], s.head.tag + 1),
                    freeCount := (s.freeCount + COUNT_MOD - 1) % COUNT_MOD), t, ACount(s.head.ptr))
  {
    steps := Extend(s, [], t, BeginAlloc);
    steps := Extend(s, steps, t, Load);
    steps := Extend(s, steps, t, ReadNext);
    steps := Extend(s, steps, t, CasPop(false));
    steps := Extend(s, steps, t, SubFree);
    assert After(s, steps).threads == s.threads[t := ACount(s.head.ptr)];
  }

  /** The counting that follows a pop. */
  lemma PopCounted(s0: State, steps: seq<Step>, t: nat) returns (more: seq<Step>)
    requires Executable(s0, steps)
    requires t < |After(s0, steps).threads| && After(s0, steps).threads[t].ACount? && After(s0, steps).threads[t].b != 0
    ensures Executable(s0, more)
    ensures var s := After(s0, steps);
            After(s0, more) == Goto(s.(allocOps := s.allocOps + 1, peak := Larger(s.peak, LiveNow(s) * s.classSize),
                                       client := s.client + {s.threads[t].b}), t, Idle)
  {
    var s := After(s0, steps);
    var b, live := s.threads[t].b, LiveNow(s);
    more := Extend(s0, steps, t, AddAllocs);
    more := Extend(s0, more, t, LoadFrees);
    more := Extend(s0, more, t, LoadPeak);
    assert After(s0, more).threads[t] == APeakCas(b, live, s.peak);
    more := Extend(s0, more, t, CasPeak(false));
    more := Extend(s0, more, t, ReturnAlloc);
    assert After(s0, more).threads == s.threads[t := Idle];
  }

  /** An undisturbed allocate() takes the block at the head, and counts it. */
  lemma AllocAlone(s: State, t: nat) returns (steps: seq<Step>)
    requires t < |s.threads| && s.threads[t] == Idle && s.head.ptr != 0 && s.head.ptr in s.mem
    ensures Executable(s, steps) && After(s, steps) == Popped(s)
  {
    steps := PopTaken(s, t);
    steps := PopCounted(s, steps, t);
    assert After(s, steps).threads == s.threads;
  }

  lemma SawEmpty(s: State, t: nat) returns (steps: seq<Step>)
    requires t < |s.threads| && s.threads[t] == Idle && s.head.ptr == 0
    ensures Executable(s, steps) && After(s, steps) == Goto(s, t, AHave(s.head))
  {
    steps := Extend(s, [], t, BeginAlloc);
    steps := Extend(s, steps, t, Load);
    assert After(s, steps).threads == s.threads[t := AHave(s.head)];
  }

  /** An undisturbed allocate() on an empty list changes nothing. */
  lemma AllocEmptyAlone(s: State, t: nat) returns (steps: seq<Step>)
    requires t < |s.threads| && s.threads[t] == Idle && s.head.ptr == 0
    ensures Executable(s, steps) && After(s, steps) == s
  {
    steps := SawEmpty(s, t);
    steps := Extend(s, steps, t, ReturnAlloc);
    assert s.threads[t := AHave(s.head)][t := Idle] == s.threads;
  }

  lemma FreeLinked(s: State, t: nat, b: Ptr) returns (steps: seq<Step>)
    requires t < |s.threads| && s.threads[t] == Idle && b in s.client && b in s.mem
    ensures Executable(s, steps)
    ensures After(s, steps)
         == Goto(s.(client := s.client - {b}, freeOps := s.freeOps + 1, mem := s.mem[b := s.head.ptr]),
                 t, PStored(b, s.head))
  {
    steps := Extend(s, [], t, BeginFree(b));
    steps := Extend(s, steps, t, AddFrees);
    steps := Extend(s, steps, t, Load);
    steps := Extend(s, steps, t, StoreNext);
    assert After(s, steps).threads == s.threads[t := PStored(b, s.head)];
  }

  lemma FreePublished(s0: State, steps: seq<Step>, t: nat) returns (more: seq<Step>)
    requires Executable(s0, steps)
    requires var s := After(s0, steps); t < |s.threads| && s.threads[t].PStored? && s.threads[t].exp == s.head
    ensures Executable(s0, more)
    ensures var s := After(s0, steps);
            After(s0, more) == Goto(s.(head := Tagged(s.threads[t].b, s.head.tag + 1),
                                       freeCount := (s.freeCount + 1) % COUNT_MOD), t, Idle)
  {
    var s := After(s0, steps);
    more := Extend(s0, steps, t, CasPush(false));
    more := Extend(s0, more, t, AddFree);
    more := Extend(s0, more, t, ReturnPush);
    assert After(s0, more).threads == s.threads[t := Idle];
  }

  /** An undisturbed deallocate() puts the block at the head, in front of what was there. */
  lemma FreeAlone(s: State, t: nat, b: Ptr) returns (steps: seq<Step>)
    requires t < |s.threads| && s.threads[t] == Idle && b in s.client && b in s.mem
    ensures Executable(s, steps) && After(s, steps) == Pushed(s, b)
  {
    steps := FreeLinked(s, t, b);
    steps := FreePublished(s, steps, t);
    assert After(s, steps).threads == s.threads;
  }

  /** A block that was freed is the next one handed out, and the list is then as it was before. */
  lemma LastFreedFirst(s: State, t: nat, u: nat, b: Ptr) returns (freed: seq<Step>, taken: seq<Step>)
    requires t < |s.threads| && s.threads[t] == Idle && u < |s.threads| && s.threads[u] == Idle
    requires b in s.client && b in s.mem && b != 0 && s.freeCount < COUNT_MOD
    ensures Executable(s, freed) && Executable(After(s, freed), taken) && b !in After(s, freed).client
    ensures var r := After(After(s, freed), taken);
            && r.client == s.client && r.head.ptr == s.head.ptr && r.freeCount == s.freeCount
            && r.mem == s.mem[b := s.head.ptr] && r.threads == s.threads
            && r.allocOps - r.freeOps == s.allocOps - s.freeOps
  {
    freed := FreeAlone(s, t, b);
    taken := AllocAlone(After(s, freed), u);
  }

  // ------------------------------------------------------------------
  // What owners write
  // ------------------------------------------------------------------

  /** The first word of every block that a caller owns, as its owner was given it or last wrote it. */
  ghost function Words(s0: State, steps: seq<Step>): map<Ptr, Ptr>
    requires Executable(s0, steps)
  {
    if steps == [] then map[] else
    var m := |steps| - 1;
    var w, s, t := Words(s0, steps[..m]), After(s0, steps[..m]), steps[m].0;
    match steps[m].1
    case ReturnAlloc =>
      if s.threads[t].ARet? && s.threads[t].r in s.mem then w[s.threads[t].r := s.mem[s.threads[t].r]] else w
    case Scribble(b, word) => w[b := word]
    case BeginFree(b) => w - {b}
    case _ => w
  }

  ghost predicate WordsKept(s: State, w: map<Ptr, Ptr>) {
    forall b :: b in s.client ==> b in s.mem && b in w && s.mem[b] == w[b]
  }

  /** No step of the allocator writes to a block that a caller owns. */
  lemma OwnersUndisturbed(s: State, a: Spec, t: nat, act: Action)
    requires Refines(s, a) && Enabled(s, t, act) && !act.Scribble?
    ensures forall b :: b in s.client ==> b in s.mem && b in Apply(s, t, act).mem && Apply(s, t, act).mem[b] == s.mem[b]
  {
    assert a.ops[t] == AbsOp(s.threads[t]);
  }

  lemma ReturnedIsCarved(s: State, a: Spec, t: nat)
    requires Refines(s, a) && Enabled(s, t, ReturnAlloc) && s.threads[t].ARet?
    ensures s.threads[t].r in s.mem
  {
    assert ThreadInv(s, s.threads[t]) && a.ops[t] == AbsOp(s.threads[t]);
  }

  /** Whatever the other threads do, an owner finds in its block what it last wrote there. */
  lemma {:induction false} OwnedWordsKept(s0: State, steps: seq<Step>)
    requires Init(s0) && Executable(s0, steps)
    ensures WordsKept(After(s0, steps), Words(s0, steps))
  {
    if steps != [] {
      var m := |steps| - 1;
      var s, t, act := After(s0, steps[..m]), steps[m].0, steps[m].1;
      OwnedWordsKept(s0, steps[..m]);
      Linearizable(s0, steps[..m]);
      var a := SpecRun(SpecInit(|s0.threads|), History(s0, steps[..m]));
      if !act.Scribble? { OwnersUndisturbed(s, a, t, act); }
      if act.ReturnAlloc? && s.threads[t].ARet? { ReturnedIsCarved(s, a, t); }
    }
  }
}
