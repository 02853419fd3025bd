/**
 The rate limiter's ring of samples, proved to hold the sliding window of the most
 recent ones however often it has gone round. Doubles are reals.
 */
module RateLimiter {
  import opened Arithmetic
  import opened Seqs

  ghost predicate PowerOf2(n: nat)
    decreases n
  {
    n == 1 || (n > 1 && n % 2 == 0 && PowerOf2(n / 2))
  }

  /** The capacity set_window_size() chooses: the least power of two, at least 2, above the window. */
  method CapacityFor(window: nat) returns (cap: nat)
    ensures PowerOf2(cap) && cap >= 2 && cap > window && (cap > 2 ==> cap / 2 <= window)
  {
    cap := 2;
    while cap < window + 1
      invariant PowerOf2(cap) && cap >= 2 && (cap > 2 ==> cap / 2 <= window)
      decreases window + 1 - cap
    {
      cap := cap * 2;
    }
  }

  /** Bitwise and. */
  function And(a: nat, b: nat): (r: nat)
    ensures r <= b
  {
    if a == 0 || b == 0 then 0 else 2 * And(a / 2, b / 2) + (if a % 2 == 1 && b % 2 == 1 then 1 else 0)
  }

  lemma Remainder(n: nat, q: nat, r: nat, d: nat)
    requires r < d && n == q * d + r
    ensures n % d == r
  {
    assert n == (n / d) * d + n % d;
    SameQuotient(q, r, n / d, n % d, d);
  }

  lemma Doubled(q: nat, half: nat, cap: nat)
    requires cap == 2 * half
    ensures q * cap == 2 * (q * half)
  {
  }

  lemma HalfRemainder(pos: nat, half: nat, cap: nat)
    requires half > 0 && cap == 2 * half
    ensures 2 * (pos / 2 % half) + pos % 2 == pos % cap
  {
    var n := pos / 2;
    assert n == (n / half) * half + n % half;
    Doubled(n / half, half, cap);
    Remainder(pos, n / half, 2 * (n % half) + pos % 2, cap);
  }

  /** Masking with a power of two less one is a remainder. */
  lemma {:induction false} MaskIsRemainder(pos: nat, cap: nat)
    requires PowerOf2(cap)
    ensures And(pos, cap - 1) == pos % cap
    decreases cap
  {
    if cap > 1 {
      var half := cap / 2;
      assert (cap - 1) / 2 == half - 1 && (cap - 1) % 2 == 1;
      MaskIsRemainder(pos / 2, half);
      HalfRemainder(pos, half, cap);
    }
  }

  /** The slot of a position: `pos & mask`. */
  function Slot(pos: nat, cap: nat): (r: nat)
    requires cap > 0
    ensures r < cap
  {
    And(pos, cap - 1)
  }

  lemma RemaindersDiffer(a: nat, b: nat, cap: nat)
    requires a < b < a + cap
    ensures a % cap != b % cap
  {
    if a % cap == b % cap {
      assert a == (a / cap) * cap + a % cap && b == (b / cap) * cap + b % cap;
      assert b - a == (b / cap - a / cap) * cap;
      if b / cap > a / cap { AtLeastOne(b / cap - a / cap, cap); } else { NotPositive(b / cap - a / cap, cap); }
    }
  }

  lemma NotPositive(n: int, d: nat)
    requires n <= 0
    ensures n * d <= 0
  {
  }

  /** Positions less than one lap apart have different slots. */
  lemma SlotsDiffer(a: nat, b: nat, cap: nat)
    requires PowerOf2(cap) && a < b < a + cap
    ensures Slot(a, cap) != Slot(b, cap)
  {
    RemaindersDiffer(a, b, cap);
    MaskIsRemainder(a, cap);
    MaskIsRemainder(b, cap);
  }

  function Magnitude(d: int): nat { if d < 0 then -d else d }

  /** Change per sample over a window, in the direction that counts. */
  function Rate(window: seq<int>, increase: bool): real {
    if |window| < 2 then 0.0 else
    var change := (window[|window| - 1] - window[0]) as real / (|window| - 1) as real;
    if increase then change else -change
  }

  lemma Evenly(n: nat, d: int)
    requires n > 0
    ensures (n * d) as real / n as real == d as real
  {
    assert (n * d) as real == n as real * d as real;
  }

  /** Samples that change by `d` each time have the rate `d`, or its opposite when declines count. */
  lemma RateOfLine(window: seq<int>, d: int, increase: bool)
    requires |window| >= 2 && window[|window| - 1] == window[0] + (|window| - 1) * d
    ensures Rate(window, increase) == if increase then d as real else (-d) as real
  {
    Evenly(|window| - 1, d);
  }

  lemma WindowMoves(samples: seq<int>, value: int, cap: nat)
    requires cap > 0
    ensures Last(samples + [value], cap) == Last(Last(samples, cap) + [value], cap)
  {
  }

  class Limiter {
    const detectIncrease: bool
    var buffer: array<int>
    var head: nat
    var count: nat
    ghost var samples: seq<int>        // every sample since the last reset

    ghost predicate Valid()
      reads this, buffer
    {
      && PowerOf2(buffer.Length) && buffer.Length >= 2 && head == |samples|
      && count == (if |samples| < buffer.Length then |samples| else buffer.Length)
      && forall k :: head - count <= k < head ==> buffer[Slot(k, buffer.Length)] == samples[k]
    }

    /** The most recent samples, as many as the ring holds. */
    ghost function Window(): seq<int>
      reads this, buffer
    {
      Last(samples, buffer.Length)
    }

    constructor (detectIncrease: bool, window: nat)
      ensures Valid() && this.detectIncrease == detectIncrease && samples == []
      ensures fresh(buffer) && buffer.Length > window
    {
      this.detectIncrease := detectIncrease;
      var cap := CapacityFor(window);
      buffer := new int[cap](_ => 0);
      head, count, samples := 0, 0, [];
    }

    /** add_value(): the window moves by one sample. */
    method AddValue(value: int)
      requires Valid()
      modifies this`head, this`count, this`samples, buffer
      ensures Valid() && samples == old(samples) + [value] && buffer == old(buffer)
      ensures Window() == Last(old(Window()) + [value], buffer.Length)
    {
      var pos, cap := head, buffer.Length;
      WindowMoves(samples, value, cap);
      head := head + 1;
      forall k | pos - count <= k < pos && k > pos - cap ensures Slot(k, cap) != Slot(pos, cap) {
        SlotsDiffer(k, pos, cap);
      }
      buffer[Slot(pos, cap)] := value;
      if count < cap { count := count + 1; }
      samples := samples + [value];
    }

    /** normalized_rate(): newest against oldest sample of the window. */
    method NormalizedRate() returns (r: real)
      requires Valid()
      ensures r == Rate(Window(), detectIncrease)
    {
      if count < 2 { return 0.0; }
      var cap := buffer.Length;
      var newest, oldest := buffer[Slot(head - 1, cap)], buffer[Slot(head - count, cap)];
      r := (newest - oldest) as real / (count - 1) as real;
      if !detectIncrease { r := -r; }
    }

    /** exceeded(): a budget that is not positive switches the check off. */
    method Exceeded(budget: int) returns (r: bool)
      requires Valid()
      ensures r <==> budget > 0 && Rate(Window(), detectIncrease) > budget as real
    {
      if budget <= 0 { return false; }
      var rate := NormalizedRate();
      r := rate > budget as real;
    }

    /** throttled_magnitude(): never more than asked, and never above a rate greater than one. */
    method ThrottledMagnitude(delta: int) returns (r: nat)
      requires Valid()
      ensures var full, rate := Magnitude(delta), Rate(Window(), detectIncrease);
              && r <= full && (rate > 1.0 ==> r as real <= rate)
              && (rate <= 1.0 || full as real <= rate ==> r == full) && (r < full ==> r as real > rate - 1.0)
    {
      var full := Magnitude(delta);
      var rate := NormalizedRate();
      if !(rate > 1.0) || full as real <= rate { return full; }
      r := rate.Floor;
    }

    /** reset(). */
    method Reset()
      requires Valid()
      modifies this`head, this`count, this`samples
      ensures Valid() && samples == [] && Window() == []
    {
      head, count, samples := 0, 0, [];
    }
  }
}
