/**
 The slab allocator and its NUMA-aware front: size classes, block headers, and
 frees that trust the header instead of the size the caller claims. Memory is a
 range of addresses; a block is named by the address of its payload. The lock-free
 list of one class is module FreeStack; here it is a stack of addresses.
 */
module SlabAllocator {
  import opened Basics
  import opened Seqs

  const NULL: nat := 0
  const HEADER: nat := 16
  const CLASSES: nat := 11
  const MIN_CLASS: nat := 64
  const MAX_CLASS: nat := 65536
  const LARGE: nat := 0xFFFF                 // class index of blocks from the global heap
  const SIZE_MAX: nat := 0xFFFF_FFFF_FFFF_FFFF
  const U32_MAX: nat := 0xFFFF_FFFF

  // ------------------------------------------------------------------
  // Size classes
  // ------------------------------------------------------------------

  function ClassSize(c: nat): (r: nat)
    ensures r >= MIN_CLASS
  {
    if c == 0 then MIN_CLASS else 2 * ClassSize(c - 1)
  }

  /** `c` is the smallest class of at least `needed` bytes. */
  ghost predicate Smallest(c: nat, needed: nat) {
    c < CLASSES && needed <= ClassSize(c) && forall d :: 0 <= d < c ==> ClassSize(d) < needed
  }

  lemma Sizes()
    ensures ClassSize(0) == 64 && ClassSize(10) == MAX_CLASS
  {
    assert ClassSize(2) == 256 && ClassSize(4) == 1024 && ClassSize(6) == 4096 && ClassSize(8) == 16384;
  }

  /** class_index_for(): doubles until the size fits. */
  method ClassIndexFor(size: nat) returns (idx: nat)
    requires size <= MAX_CLASS
    ensures Smallest(idx, size)
  {
    Sizes();
    if size <= MIN_CLASS { return 0; }
    var cls := MIN_CLASS;
    idx := 0;
    while cls < size && idx < CLASSES - 1
      invariant idx < CLASSES && cls == ClassSize(idx) && forall d :: 0 <= d < idx ==> ClassSize(d) < size
      decreases CLASSES - idx
    {
      cls := cls * 2;
      idx := idx + 1;
    }
  }

  function SaturatingAdd(a: nat, b: nat): nat { if a + b > SIZE_MAX then SIZE_MAX else a + b }

  lemma {:induction false} Increasing(c: nat, d: nat)
    requires c < d
    ensures ClassSize(c) < ClassSize(d)
  {
    if c < d - 1 { Increasing(c, d - 1); }
  }

  /** The class that serves a request for `size` payload bytes. */
  ghost predicate Serves(c: nat, size: nat) {
    if size + HEADER > MAX_CLASS then c == LARGE else Smallest(c, size + HEADER)
  }

  /** class_index_for_payload(). */
  method ClassIndexForPayload(size: nat) returns (idx: nat)
    requires size <= SIZE_MAX
    ensures Serves(idx, size)
  {
    var needed := SaturatingAdd(size, HEADER);
    if needed > MAX_CLASS { return LARGE; }
    idx := ClassIndexFor(needed);
  }

  /** The test deallocate() makes: the claimed class against the recorded one. */
  predicate ClaimFits(claimed: nat, recorded: nat) {
    if recorded >= CLASSES then claimed == LARGE else claimed <= recorded
  }

  /**
   What the test means: a claim is accepted exactly when the block could hold that many bytes,
   or when both the claim and the block are too large for any class.
   */
  lemma ClaimFitsMeans(claimed: nat, recorded: nat, size: nat)
    requires Serves(claimed, size) && (recorded < CLASSES || recorded == LARGE)
    ensures ClaimFits(claimed, recorded) <==>
              if recorded == LARGE then size + HEADER > MAX_CLASS else size + HEADER <= ClassSize(recorded)
  {
    Sizes();
    if recorded != LARGE {
      if claimed < recorded { Increasing(claimed, recorded); }
      if recorded < CLASSES - 1 { Increasing(recorded, CLASSES - 1); }
    }
  }

  // ------------------------------------------------------------------
  // Carving
  // ------------------------------------------------------------------

  function ItemsPerSlab(slabSize: nat, classSize: nat): nat
    requires classSize > 0
  {
    if slabSize / classSize > 0 then slabSize / classSize else 1
  }

  /** Where block `i` of a slab ends. */
  function BlockEnd(i: nat, classSize: nat): nat { (i + 1) * classSize }

  lemma BelowQuotient(slabSize: nat, classSize: nat, i: nat)
    requires classSize > 0 && i < slabSize / classSize
    ensures BlockEnd(i, classSize) <= slabSize
  {
    assert (i + 1) * classSize <= (slabSize / classSize) * classSize;
  }

  /** The bytes taken by all the blocks of a slab. */
  function CarvedBytes(slabSize: nat, classSize: nat): nat
    requires classSize > 0
  {
    ItemsPerSlab(slabSize, classSize) * classSize
  }

  lemma NextBlock(i: nat, n: nat, classSize: nat)
    requires i < n
    ensures i * classSize + classSize == (i + 1) * classSize <= n * classSize
  {
    assert (i + 1) * classSize + (n - i - 1) * classSize == n * classSize;
  }

  /** The blocks carved from a slab lie inside it exactly when the slab is at least one block long. */
  lemma CarvedInside(slabSize: nat, classSize: nat)
    requires classSize > 0
    ensures (forall i :: 0 <= i < ItemsPerSlab(slabSize, classSize) ==> BlockEnd(i, classSize) <= slabSize) <==>
              slabSize >= classSize
    ensures CarvedBytes(slabSize, classSize) <= slabSize <==> slabSize >= classSize
  {
    if slabSize >= classSize {
      assert slabSize / classSize >= 1;
      forall i | 0 <= i < ItemsPerSlab(slabSize, classSize) ensures BlockEnd(i, classSize) <= slabSize {
        BelowQuotient(slabSize, classSize, i);
      }
    } else {
      assert slabSize / classSize == 0;
      assert BlockEnd(0, classSize) > slabSize;
    }
  }

  // ------------------------------------------------------------------
  // Blocks, free lists and live allocations
  // ------------------------------------------------------------------

  datatype Header = Header(capacity: nat, cls: nat, node: nat)

  type Place = (nat, nat)                    // node and class

  type Headers = map<nat, Header>
  type FreeLists = map<Place, seq<nat>>
  type Live = map<nat, nat>                  // live payloads and the sizes asked for

  function Home(h: Header): Place { (h.node, h.cls) }

  /** The bytes a block takes, header included. */
  function Extent(headers: Headers, live: Live, a: nat): nat
    requires a in headers
  {
    if headers[a].cls < CLASSES then ClassSize(headers[a].cls)
    else HEADER + (if a in live then live[a] else 0)
  }

  /** Every free block is on the list of the node and class that carved it, once, and is not live. */
  ghost predicate FreeOk(headers: Headers, free: FreeLists, live: Live) {
    && (forall p, i :: p in free && 0 <= i < |free[p]| ==>
          free[p][i] in headers && Home(headers[free[p][i]]) == p && free[p][i] !in live)
    && (forall p :: p in free ==> Distinct(free[p]))
  }

  /** Every live block is of the class that serves the size asked for. */
  ghost predicate LiveOk(headers: Headers, live: Live) {
    forall a :: a in live ==> a in headers && Serves(headers[a].cls, live[a])
  }

  /** Every carved block is live or on its list; a large block is live. */
  ghost predicate HeadersOk(headers: Headers, free: FreeLists, live: Live) {
    forall a :: a in headers ==>
      && a >= HEADER
      && (headers[a].cls < CLASSES ==>
            && headers[a].capacity == ClassSize(headers[a].cls) - HEADER
            && Home(headers[a]) in free && (a in live || a in free[Home(headers[a])]))
      && (headers[a].cls >= CLASSES ==> headers[a].cls == LARGE && a in live)
  }

  ghost predicate Before(headers: Headers, live: Live, a: nat, b: nat)
    requires a in headers
  {
    a + Extent(headers, live, a) <= b
  }

  /** No two blocks overlap. */
  ghost predicate Apart(headers: Headers, live: Live) {
    forall a, b :: a in headers && b in headers && a < b ==> Before(headers, live, a, b)
  }

  /** The range of `len` bytes at `base` touches no block. */
  ghost predicate Untouched(headers: Headers, live: Live, base: nat, len: nat) {
    forall a :: a in headers ==> Before(headers, live, a, base + HEADER) || base + len + HEADER <= a
  }

  ghost predicate Good(headers: Headers, free: FreeLists, live: Live) {
    FreeOk(headers, free, live) && LiveOk(headers, live) && HeadersOk(headers, free, live) && Apart(headers, live)
  }

  lemma UntouchedFresh(headers: Headers, live: Live, base: nat, len: nat)
    requires Untouched(headers, live, base, len) && len > 0
    ensures base + HEADER !in headers
  {
  }

  function WithBlock(headers: Headers, n: nat, c: nat, base: nat): Headers {
    headers[base + HEADER := Header(ClassSize(c) - HEADER, c, n)]
  }

  function WithFree(free: FreeLists, p: Place, a: nat): FreeLists
    requires p in free
  {
    free[p := free[p] + [a]]
  }

  lemma CarvedFree(headers: Headers, free: FreeLists, live: Live, n: nat, c: nat, base: nat)
    requires FreeOk(headers, free, live) && LiveOk(headers, live) && (n, c) in free && base + HEADER !in headers
    ensures FreeOk(WithBlock(headers, n, c, base), WithFree(free, (n, c), base + HEADER), live)
  {
  }

  lemma InLonger<T>(s: seq<T>, x: T, y: T)
    ensures x in s ==> x in s + [y]
    ensures y in s + [y]
  {
    assert (s + [y])[|s|] == y;
  }

  lemma CarvedHeaders(headers: Headers, free: FreeLists, live: Live, n: nat, c: nat, base: nat)
    requires HeadersOk(headers, free, live) && (n, c) in free && c < CLASSES && base + HEADER !in headers
    ensures HeadersOk(WithBlock(headers, n, c, base), WithFree(free, (n, c), base + HEADER), live)
  {
    forall x ensures x in free[(n, c)] ==> x in free[(n, c)] + [base + HEADER] {
      InLonger(free[(n, c)], x, base + HEADER);
    }
    InLonger(free[(n, c)], 0, base + HEADER);
  }

  /** A new block of `len` bytes in an untouched range overlaps nothing. */
  lemma AddedApart(headers: Headers, live: Live, x: nat, h: Header, len: nat, after: Headers, live': Live)
    requires Apart(headers, live) && x >= HEADER && Untouched(headers, live, x - HEADER, len) && x !in headers
    requires after == headers[x := h] && Extent(after, live', x) == len
    requires forall a :: a in headers ==> Extent(after, live', a) == Extent(headers, live, a)
    ensures Apart(after, live')
  {
    forall a, b | a in after && b in after && a < b ensures Before(after, live', a, b) {
      if a == x {
        assert Before(headers, live, b, x) || x + len <= b;
      } else if b == x {
        assert Before(headers, live, a, x) || x + len <= a;
      } else {
        assert Before(headers, live, a, b);
      }
    }
  }

  lemma CarvedApart(headers: Headers, live: Live, n: nat, c: nat, base: nat)
    requires Apart(headers, live) && c < CLASSES && Untouched(headers, live, base, ClassSize(c))
    requires base + HEADER !in headers
    ensures Apart(WithBlock(headers, n, c, base), live)
  {
    AddedApart(headers, live, base + HEADER, Header(ClassSize(c) - HEADER, c, n), ClassSize(c),
               WithBlock(headers, n, c, base), live);
  }

  /** Carving one more block in an untouched range. */
  lemma Carved(headers: Headers, free: FreeLists, live: Live, n: nat, c: nat, base: nat)
    requires Good(headers, free, live) && (n, c) in free && c < CLASSES && Untouched(headers, live, base, ClassSize(c))
    ensures base + HEADER !in headers
    ensures Good(WithBlock(headers, n, c, base), WithFree(free, (n, c), base + HEADER), live)
  {
    UntouchedFresh(headers, live, base, ClassSize(c));
    CarvedFree(headers, free, live, n, c, base);
    CarvedHeaders(headers, free, live, n, c, base);
    CarvedApart(headers, live, n, c, base);
  }

  /** What is left of the range after its first block is still untouched. */
  lemma RestUntouched(headers: Headers, live: Live, n: nat, c: nat, base: nat, len: nat)
    requires c < CLASSES && ClassSize(c) <= len && Untouched(headers, live, base, len) && base + HEADER !in headers
    ensures Untouched(WithBlock(headers, n, c, base), live, base + ClassSize(c), len - ClassSize(c))
  {
    var after := WithBlock(headers, n, c, base);
    forall a | a in after
      ensures Before(after, live, a, base + ClassSize(c) + HEADER) || base + len + HEADER <= a
    {
      if a != base + HEADER { assert Before(headers, live, a, base + HEADER) || base + len + HEADER <= a; }
    }
  }

  lemma ShorterUntouched(headers: Headers, live: Live, base: nat, len: nat, less: nat)
    requires Untouched(headers, live, base, len) && less <= len
    ensures Untouched(headers, live, base, less)
  {
    forall a | a in headers ensures Before(headers, live, a, base + HEADER) || base + less + HEADER <= a {
      assert Before(headers, live, a, base + HEADER) || base + len + HEADER <= a;
    }
  }

  // ------------------------------------------------------------------
  // Handing out and taking back
  // ------------------------------------------------------------------

  lemma ExtentsSame(headers: Headers, live: Live, live': Live)
    requires Apart(headers, live)
    requires forall a :: a in headers ==> Extent(headers, live', a) == Extent(headers, live, a)
    ensures Apart(headers, live')
  {
    forall a, b | a in headers && b in headers && a < b ensures Before(headers, live', a, b) {
      assert Before(headers, live, a, b);
    }
  }

  lemma StillIn<T>(s: seq<T>, x: T)
    requires s != [] && x in s && x != s[|s| - 1]
    ensures x in s[..|s| - 1]
  {
    var i :| 0 <= i < |s| && s[i] == x;
    assert s[..|s| - 1][i] == x;
  }

  lemma PoppedFree(headers: Headers, free: FreeLists, live: Live, p: Place, size: nat)
    requires FreeOk(headers, free, live) && p in free && free[p] != []
    ensures var a, m := free[p][|free[p]| - 1], |free[p]| - 1;
            FreeOk(headers, free[p := free[p][..m]], live[a := size])
  {
  }

  lemma PoppedHeaders(headers: Headers, free: FreeLists, live: Live, p: Place, size: nat)
    requires FreeOk(headers, free, live) && HeadersOk(headers, free, live) && p in free && free[p] != []
    ensures var a, m := free[p][|free[p]| - 1], |free[p]| - 1;
            HeadersOk(headers, free[p := free[p][..m]], live[a := size])
  {
    var a, m := free[p][|free[p]| - 1], |free[p]| - 1;
    forall x | x in free[p] && x != a ensures x in free[p][..m] { StillIn(free[p], x); }
  }

  /** The top of a free list becomes live. */
  lemma Popped(headers: Headers, free: FreeLists, live: Live, p: Place, size: nat)
    requires Good(headers, free, live) && p in free && free[p] != [] && p.1 < CLASSES && Serves(p.1, size)
    ensures var a, m := free[p][|free[p]| - 1], |free[p]| - 1;
            Good(headers, free[p := free[p][..m]], live[a := size])
  {
    PoppedFree(headers, free, live, p, size);
    PoppedHeaders(headers, free, live, p, size);
    ExtentsSame(headers, live, live[free[p][|free[p]| - 1] := size]);
  }

  lemma ReturnedHeaders(headers: Headers, free: FreeLists, live: Live, a: nat, p: Place)
    requires HeadersOk(headers, free, live) && a in headers && p == Home(headers[a]) && p in free
    ensures headers[a].cls < CLASSES ==> HeadersOk(headers, WithFree(free, p, a), live - {a})
  {
    forall x ensures x in free[p] ==> x in free[p] + [a] { InLonger(free[p], x, a); }
    InLonger(free[p], a, a);
  }

  lemma ReturnedFree(headers: Headers, free: FreeLists, live: Live, a: nat, p: Place)
    requires FreeOk(headers, free, live) && a in live && a in headers && p == Home(headers[a]) && p in free
    ensures FreeOk(headers, WithFree(free, p, a), live - {a})
  {
  }

  /** A live block goes back to the list of the node and class that carved it. */
  lemma Returned(headers: Headers, free: FreeLists, live: Live, a: nat)
    requires Good(headers, free, live) && a in live && headers[a].cls < CLASSES
    ensures Home(headers[a]) in free && Good(headers, WithFree(free, Home(headers[a]), a), live - {a})
  {
    ReturnedFree(headers, free, live, a, Home(headers[a]));
    ReturnedHeaders(headers, free, live, a, Home(headers[a]));
    ExtentsSame(headers, live, live - {a});
  }

  /** A block from the global heap. */
  lemma LargeAdded(headers: Headers, free: FreeLists, live: Live, base: nat, size: nat, h: Header,
                   headers': Headers, live': Live)
    requires Good(headers, free, live) && Untouched(headers, live, base, size + HEADER)
    requires h.cls == LARGE && size + HEADER > MAX_CLASS
    requires headers' == headers[base + HEADER := h] && live' == live[base + HEADER := size]
    ensures base + HEADER !in headers && Good(headers', free, live')
  {
    UntouchedFresh(headers, live, base, size + HEADER);
    AddedApart(headers, live, base + HEADER, h, size + HEADER, headers', live');
  }

  lemma LargeRemoved(headers: Headers, free: FreeLists, live: Live, a: nat)
    requires Good(headers, free, live) && a in live && headers[a].cls == LARGE
    ensures Good(headers - {a}, free, live - {a})
  {
    var after, live' := headers - {a}, live - {a};
    forall x, y | x in after && y in after && x < y ensures Before(after, live', x, y) {
      assert Before(headers, live, x, y);
    }
  }

  // ------------------------------------------------------------------
  // The allocator
  // ------------------------------------------------------------------

  /** Blocks were added, all of them at `p`; no header and no other list changed. */
  ghost predicate Grew(headers: Headers, headers': Headers, free: FreeLists, free': FreeLists, p: Place) {
    && (forall a :: a in headers ==> a in headers' && headers'[a] == headers[a])
    && (forall a :: a in headers' && a !in headers ==> headers'[a].node == p.0)
    && p in free && free'.Keys == free.Keys && free[p] <= free'[p]
    && (forall q :: q in free && q != p ==> free'[q] == free[q])
  }

  lemma GrewMore(headers: Headers, headers': Headers, free: FreeLists, free': FreeLists, n: nat, c: nat, at: nat)
    requires Grew(headers, headers', free, free', (n, c))
    ensures at + HEADER !in headers' ==>
              Grew(headers, WithBlock(headers', n, c, at), free, WithFree(free', (n, c), at + HEADER), (n, c))
  {
  }

  datatype Outcome = Block(payload: nat) | Null | Threw

  class NumaAllocator {
    const nodes: nat
    const slabSizes: seq<nat>                // by class
    var maxSlabs: map<Place, nat>
    var numSlabs: map<Place, nat>
    var headers: Headers                     // the block headers in memory
    var free: FreeLists
    var failures: nat
    var rejects: nat
    ghost var live: Live

    ghost predicate Valid()
      reads this
    {
      && nodes > 0 && |slabSizes| == CLASSES
      && (forall n, c :: 0 <= n < nodes && 0 <= c < CLASSES ==>
            (n, c) in free && (n, c) in maxSlabs && (n, c) in numSlabs)
      && (forall a :: a in headers ==> headers[a].node < nodes)
      && (forall p :: p in numSlabs && p in maxSlabs ==> numSlabs[p] <= maxSlabs[p])
      && Good(headers, free, live)
    }

    /** The bytes a new slab of class `c` is carved into; they may be more than the slab has. */
    function SlabBytes(c: nat): nat
      requires c < |slabSizes|
    {
      CarvedBytes(slabSizes[c], ClassSize(c))
    }

    /** add_slab(): carves the slab at `base` into blocks of class `c`. */
    method AddSlab(n: nat, c: nat, base: nat)
      requires Valid() && n < nodes && c < CLASSES && Untouched(headers, live, base, SlabBytes(c))
      requires numSlabs[(n, c)] < maxSlabs[(n, c)]
      modifies this`headers, this`free, this`numSlabs
      ensures Valid() && Grew(old(headers), headers, old(free), free, (n, c))
      ensures |free[(n, c)]| == |old(free)[(n, c)]| + ItemsPerSlab(slabSizes[c], ClassSize(c))
      ensures numSlabs == old(numSlabs)[(n, c) := old(numSlabs)[(n, c)] + 1]
    {
      CarveAll(n, c, base);
      numSlabs := numSlabs[(n, c) := numSlabs[(n, c)] + 1];
    }

    method CarveAll(n: nat, c: nat, base: nat)
      requires Good(headers, free, live) && (n, c) in free && c < CLASSES && |slabSizes| == CLASSES
      requires Untouched(headers, live, base, SlabBytes(c))
      modifies this`headers, this`free
      ensures Good(headers, free, live) && Grew(old(headers), headers, old(free), free, (n, c))
      ensures |free[(n, c)]| == |old(free)[(n, c)]| + ItemsPerSlab(slabSizes[c], ClassSize(c))
    {
      var cls := ClassSize(c);
      var items := ItemsPerSlab(slabSizes[c], cls);
      var at := base;
      ghost var left := items * cls;
      for i := 0 to items
        invariant Good(headers, free, live) && Grew(old(headers), headers, old(free), free, (n, c))
        invariant at == base + i * cls && left == items * cls - i * cls && Untouched(headers, live, at, left)
        invariant |free[(n, c)]| == |old(free)[(n, c)]| + i
      {
        NextBlock(i, items, cls);
        GrewMore(old(headers), headers, old(free), free, n, c, at);
        CarveOne(n, c, at, left);
        at, left := at + cls, left - cls;
      }
    }

    method CarveOne(n: nat, c: nat, at: nat, ghost left: nat)
      requires Good(headers, free, live) && (n, c) in free && c < CLASSES
      requires ClassSize(c) <= left && Untouched(headers, live, at, left)
      modifies this`headers, this`free
      ensures Good(headers, free, live) && Untouched(headers, live, at + ClassSize(c), left - ClassSize(c))
      ensures headers == WithBlock(old(headers), n, c, at) && at + HEADER !in old(headers)
      ensures free == WithFree(old(free), (n, c), at + HEADER)
    {
      ShorterUntouched(headers, live, at, left, ClassSize(c));
      Carved(headers, free, live, n, c, at);
      RestUntouched(headers, live, n, c, at, left);
      headers := WithBlock(headers, n, c, at);
      free := WithFree(free, (n, c), at + HEADER);
    }

    constructor (nodes: nat, slabSizes: seq<nat>, maxSlabs: nat)
      requires nodes > 0 && |slabSizes| == CLASSES
      ensures Valid() && this.nodes == nodes && this.slabSizes == slabSizes && headers == map[] && live == map[]
      ensures failures == rejects == 0
      ensures forall p :: p in numSlabs ==> numSlabs[p] == 0 && p in this.maxSlabs && this.maxSlabs[p] == maxSlabs
    {
      var places := set n, c | 0 <= n < nodes && 0 <= c < CLASSES :: (n, c);
      this.nodes, this.slabSizes := nodes, slabSizes;
      this.maxSlabs, numSlabs := map p | p in places :: maxSlabs, map p | p in places :: 0;
      headers, free, live := map[], map p | p in places :: [], map[];
      failures, rejects := 0, 0;
    }

    /** Takes the block on top of a list. */
    method Pop(p: Place, ghost size: nat) returns (a: nat)
      requires Valid() && p in free && free[p] != [] && p.1 < CLASSES && Serves(p.1, size)
      modifies this`free, this`live
      ensures Valid() && p in free && old(free)[p] == free[p] + [a] && free == old(free)[p := free[p]]
      ensures live == old(live)[a := size]
      ensures a in headers && a !in old(live) && Home(headers[a]) == p && headers[a].capacity >= size
    {
      Popped(headers, free, live, p, size);
      var m := |free[p]| - 1;
      a := free[p][m];
      free := free[p := free[p][..m]];
      live := live[a := size];
    }

    /** allocate_large(): a block from the global heap, with a header like any other. */
    method AllocateLarge(n: nat, size: nat, base: nat) returns (a: nat)
      requires Valid() && n < nodes && size + HEADER > MAX_CLASS && Untouched(headers, live, base, size + HEADER)
      modifies this`headers, this`live
      ensures Valid() && a == base + HEADER && a !in old(headers) && live == old(live)[a := size]
      ensures headers == old(headers)[a := Header(if size > U32_MAX then U32_MAX else size, LARGE, n)]
    {
      a := base + HEADER;
      var h := Header(if size > U32_MAX then U32_MAX else size, LARGE, n);
      var more := headers[a := h];
      LargeAdded(headers, free, live, base, size, h, more, live[a := size]);
      headers := more;
      live := live[a := size];
    }

    /** Nothing free in the class and no slab may be added. */
    ghost predicate Exhausted(n: nat, c: nat)
      reads this
    {
      && (n, c) in free && (n, c) in numSlabs && (n, c) in maxSlabs && c < CLASSES
      && free[(n, c)] == [] && numSlabs[(n, c)] >= maxSlabs[(n, c)]
    }

    /** The system has to be asked for memory. */
    ghost predicate NeedsMemory(n: nat, c: nat)
      reads this
    {
      c >= CLASSES || ((n, c) in free && free[(n, c)] == [] && !Exhausted(n, c))
    }

    /** The block came from the top of its list, from a slab added because the list was empty, or from the heap. */
    ghost predicate Served(a: nat, n: nat, c: nat, headers0: Headers, free0: FreeLists, numSlabs0: map<Place, nat>)
      reads this
    {
      var p := (n, c);
      if c == LARGE then
        free == free0 && numSlabs == numSlabs0 && a !in headers0 && headers.Keys == headers0.Keys + {a}
      else
        && p in free && p in free0 && p in numSlabs0
        && (forall q :: q in free0 && q != p ==> q in free && free[q] == free0[q])
        && if free0[p] != [] then
             headers == headers0 && numSlabs == numSlabs0 && free0[p] == free[p] + [a]
           else
             && c < |slabSizes| && numSlabs == numSlabs0[p := numSlabs0[p] + 1]
             && |free[p]| + 1 == ItemsPerSlab(slabSizes[c], ClassSize(c))
    }

    /** The block was not live, is live now with the size asked for, and is node `n`'s of class `c`. */
    ghost predicate Handed(a: nat, size: nat, n: nat, c: nat, headers0: Headers, live0: Live)
      reads this
    {
      && a !in live0 && live == live0[a := size]
      && a in headers && headers[a].node == n && headers[a].cls == c && (c != LARGE ==> headers[a].capacity >= size)
      && forall x :: x in headers0 ==> x in headers && headers[x] == headers0[x]
    }

    /** A block of class `c` from node `n`'s list, once a slab is there. */
    method AllocateSmall(n: nat, c: nat, size: nat, base: nat) returns (a: nat)
      requires Valid() && n < nodes && c < CLASSES && Serves(c, size)
      requires free[(n, c)] == [] ==>
                 numSlabs[(n, c)] < maxSlabs[(n, c)] && Untouched(headers, live, base, SlabBytes(c))
      modifies this`headers, this`free, this`live, this`numSlabs
      ensures Valid() && Handed(a, size, n, c, old(headers), old(live))
      ensures Served(a, n, c, old(headers), old(free), old(numSlabs))
    {
      if free[(n, c)] == [] { AddSlab(n, c, base); }
      a := Pop((n, c), size);
    }

    /** slab_allocator::allocate() on node `n`; `os` is what the system answers if it is asked for memory. */
    method AllocateOn(n: nat, size: nat, os: Option<nat>) returns (r: Outcome, ghost c: nat)
      requires Valid() && n < nodes && size <= SIZE_MAX
      requires os.Some? ==> forall c: nat :: Serves(c, size) && (c == LARGE || c < CLASSES) ==>
                 Untouched(headers, live, os.value, if c == LARGE then size + HEADER else SlabBytes(c))
      modifies this`headers, this`free, this`live, this`failures, this`numSlabs
      ensures Valid() && rejects == old(rejects) && Serves(c, size) && r.Null? == old(Exhausted(n, c))
      ensures r.Threw? == (os.None? && old(NeedsMemory(n, c)))
      ensures r.Block? ==>
                && failures == old(failures) && Handed(r.payload, size, n, c, old(headers), old(live))
                && Served(r.payload, n, c, old(headers), old(free), old(numSlabs))
      ensures !r.Block? ==>
                && live == old(live) && headers == old(headers) && free == old(free) && numSlabs == old(numSlabs)
                && failures == old(failures) + 1
    {
      var idx := ClassIndexForPayload(size);
      c := idx;
      if idx == LARGE {
        if os.None? {
          failures := failures + 1;
          return Threw, c;
        }
        var large := AllocateLarge(n, size, os.value);
        return Block(large), c;
      }
      if free[(n, idx)] == [] && numSlabs[(n, idx)] >= maxSlabs[(n, idx)] {
        failures := failures + 1;
        return Null, c;
      }
      if free[(n, idx)] == [] && os.None? {
        failures := failures + 1;
        return Threw, c;
      }
      var a := AllocateSmall(n, idx, size, if os.Some? then os.value else 0);
      r := Block(a);
    }

    /** allocate(): on the calling thread's node, or node 0 beyond the known ones. */
    method Allocate(current: nat, size: nat, os: Option<nat>) returns (r: Outcome, ghost c: nat)
      requires Valid() && size <= SIZE_MAX
      requires os.Some? ==> forall c: nat :: Serves(c, size) && (c == LARGE || c < CLASSES) ==>
                 Untouched(headers, live, os.value, if c == LARGE then size + HEADER else SlabBytes(c))
      modifies this`headers, this`free, this`live, this`failures, this`numSlabs
      ensures Valid() && rejects == old(rejects) && Serves(c, size)
      ensures var n := if current < nodes then current else 0;
              && r.Null? == old(Exhausted(n, c)) && r.Threw? == (os.None? && old(NeedsMemory(n, c)))
              && (r.Block? ==>
                    && failures == old(failures) && Handed(r.payload, size, n, c, old(headers), old(live))
                    && Served(r.payload, n, c, old(headers), old(free), old(numSlabs)))
      ensures !r.Block? ==>
                && live == old(live) && headers == old(headers) && free == old(free) && numSlabs == old(numSlabs)
                && failures == old(failures) + 1
    {
      r, c := AllocateOn(if current < nodes then current else 0, size, os);
    }

    /** allocator_for_block(): the node recorded in the header, or the calling thread's for a foreign pointer. */
    function Route(a: nat, current: nat): nat
      reads this
    {
      if a in headers && headers[a].node < nodes then headers[a].node else if current < nodes then current else 0
    }

    /** The block returns to node `n`'s list for its class. */
    method FreeToList(n: nat, a: nat)
      requires Valid() && a in live && n == headers[a].node && headers[a].cls < CLASSES
      modifies this`free, this`live
      ensures Valid() && live == old(live) - {a}
      ensures Home(headers[a]) in old(free) && free == WithFree(old(free), Home(headers[a]), a)
    {
      Returned(headers, free, live, a);
      free := WithFree(free, (n, headers[a].cls), a);
      live := live - {a};
    }

    method FreeToHeap(a: nat)
      requires Valid() && a in live && headers[a].cls == LARGE
      modifies this`headers, this`live
      ensures Valid() && live == old(live) - {a} && headers == old(headers) - {a}
    {
      LargeRemoved(headers, free, live, a);
      headers := headers - {a};
      live := live - {a};
    }

    /** free_by_header() of node `n`'s allocator. */
    method FreeByHeader(n: nat, a: nat)
      requires Valid() && a in live && n == headers[a].node
      modifies this`headers, this`free, this`live
      ensures Valid() && Freed(a, old(headers), old(free), old(live))
    {
      if headers[a].cls >= CLASSES { FreeToHeap(a); } else { FreeToList(n, a); }
    }

    /** The block is back where it was carved, and nothing else has moved. */
    ghost predicate Freed(a: nat, headers0: Headers, free0: FreeLists, live0: Live)
      requires a in headers0
      reads this
    {
      && live == live0 - {a}
      && var h := headers0[a];
         if h.cls == LARGE then headers == headers0 - {a} && free == free0
         else headers == headers0 && Home(h) in free0 && free == WithFree(free0, Home(h), a)
    }

    /**
     deallocate() from any thread, with any claimed size. The null pointer is ignored. A pointer
     without our header and a claim that does not fit only count as rejected; otherwise the block
     goes home.
     */
    method Deallocate(current: nat, a: nat, claimed: nat)
      requires Valid() && claimed <= SIZE_MAX && (a in headers ==> a in live)
      modifies this`headers, this`free, this`live, this`rejects
      ensures Valid()
      ensures var accepted := a in old(headers) &&
                (if old(headers)[a].cls == LARGE then claimed + HEADER > MAX_CLASS
                 else claimed <= old(headers)[a].capacity);
              if accepted then Freed(a, old(headers), old(free), old(live)) && rejects == old(rejects)
              else
                && headers == old(headers) && free == old(free) && live == old(live)
                && rejects == old(rejects) + (if a == NULL then 0 else 1)
      ensures a in old(live) && claimed == old(live)[a] ==> a !in live
    {
      if a == NULL { return; }
      if a !in headers {
        rejects := rejects + 1;
        return;
      }
      var c := ClassIndexForPayload(claimed);
      ClaimFitsMeans(c, headers[a].cls, claimed);
      if !ClaimFits(c, headers[a].cls) {
        rejects := rejects + 1;
        return;
      }
      FreeByHeader(Route(a, current), a);
    }

    /** deallocate_block(): no size to get wrong. */
    method DeallocateBlock(current: nat, a: nat)
      requires Valid() && (a in headers ==> a in live)
      modifies this`headers, this`free, this`live, this`rejects
      ensures Valid()
      ensures if a in old(headers) then Freed(a, old(headers), old(free), old(live)) && rejects == old(rejects)
              else
                && headers == old(headers) && free == old(free) && live == old(live)
                && rejects == old(rejects) + (if a == NULL then 0 else 1)
    {
      if a == NULL { return; }
      if a !in headers {
        rejects := rejects + 1;
      } else {
        FreeByHeader(Route(a, current), a);
      }
    }
  }
}
