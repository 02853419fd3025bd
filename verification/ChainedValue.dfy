/**
 A value kept as a doubly linked list of chunks on the heap. The list is proved to
 be well formed, to hold the bytes it was given, to be copied without sharing, and
 to be freed chunk by chunk.
 */
module ChainedValue {
  import opened Arithmetic
  import opened Basics
  import opened Seqs

  type Bytes = seq<Byte>

  // ------------------------------------------------------------------
  // Cutting bytes into chunks
  // ------------------------------------------------------------------

  function Flatten(parts: seq<Bytes>): Bytes {
    if parts == [] then [] else Flatten(parts[..|parts| - 1]) + parts[|parts| - 1]
  }

  /** Every part is full but the last, which is not empty. */
  ghost predicate Packed(parts: seq<Bytes>, payload: nat) {
    && (forall i :: 0 <= i < |parts| - 1 ==> |parts[i]| == payload)
    && (parts != [] ==> 0 < |parts[|parts| - 1]| <= payload)
  }

  ghost predicate AllFull(parts: seq<Bytes>, payload: nat) { forall i :: 0 <= i < |parts| ==> |parts[i]| == payload }

  /** How many chunks of `payload` bytes hold `n` bytes: n / payload, rounded up. */
  function ChunksFor(n: nat, payload: nat): nat
    requires payload > 0
  {
    (n + payload - 1) / payload
  }

  lemma {:induction false} FullLength(parts: seq<Bytes>, payload: nat)
    requires AllFull(parts, payload)
    ensures |Flatten(parts)| == |parts| * payload
  {
    if parts != [] {
      FullLength(parts[..|parts| - 1], payload);
      assert |parts| * payload == (|parts| - 1) * payload + payload;
    }
  }

  lemma RoundedUp(k: nat, last: nat, payload: nat)
    requires 0 < last <= payload
    ensures ChunksFor(k * payload + last, payload) == k + 1
  {
    var n := k * payload + last + payload - 1;
    assert n == (k + 1) * payload + (last - 1);
    Quotient(k + 1, last - 1, payload);
  }

  /** Packed parts are as many as rounding up says. */
  lemma PackedCount(parts: seq<Bytes>, payload: nat)
    requires payload > 0 && Packed(parts, payload)
    ensures |parts| == ChunksFor(|Flatten(parts)|, payload)
  {
    if parts == [] {
      Quotient(0, payload - 1, payload);
    } else {
      var m := |parts| - 1;
      FullLength(parts[..m], payload);
      RoundedUp(m, |parts[m]|, payload);
    }
  }

  lemma FlattenPush(parts: seq<Bytes>, b: Bytes)
    ensures Flatten(parts + [b]) == Flatten(parts) + b
  {
    assert (parts + [b])[..|parts|] == parts;
  }

  /** The space parts leave unused. */
  function Unused(parts: seq<Bytes>, payload: nat): int {
    if parts == [] then 0 else Unused(parts[..|parts| - 1], payload) + payload - |parts[|parts| - 1]|
  }

  lemma {:induction false} UsedAndUnused(parts: seq<Bytes>, payload: nat)
    ensures |parts| * payload == |Flatten(parts)| + Unused(parts, payload)
  {
    if parts != [] {
      UsedAndUnused(parts[..|parts| - 1], payload);
      assert |parts| * payload == (|parts| - 1) * payload + payload;
    }
  }

  // ------------------------------------------------------------------
  // Chunks on the heap
  // ------------------------------------------------------------------

  class Chunk {
    var next: Chunk?
    var prev: Chunk?
    var data: Bytes          // the data_size bytes in use
    var pins: nat            // access references

    constructor ()
      ensures next == null && prev == null && data == [] && pins == 0
    {
      next, prev, data, pins := null, null, [], 0;
    }

    /** write(): as much as fits. */
    method Write(src: Bytes, payload: nat) returns (written: nat)
      modifies this`data
      ensures written == (if |src| < payload then |src| else payload) && data == src[..written]
    {
      written := if |src| < payload then |src| else payload;
      data := src[..written];
    }
  }

  function NextAt(chain: seq<Chunk>, i: nat): Chunk? { if i + 1 < |chain| then chain[i + 1] else null }

  function PrevAt(chain: seq<Chunk>, i: nat): Chunk? { if 0 < i <= |chain| then chain[i - 1] else null }

  ghost predicate NextsOk(chain: seq<Chunk>, n: nat)
    requires n <= |chain|
    reads chain
  {
    forall i {:trigger chain[i].next} :: 0 <= i < n ==> chain[i].next == NextAt(chain, i)
  }

  ghost predicate PrevsOk(chain: seq<Chunk>)
    reads chain
  {
    forall i {:trigger chain[i].prev} :: 0 <= i < |chain| ==> chain[i].prev == PrevAt(chain, i)
  }

  /** The chunks are linked both ways in this order, ending in null on both sides. */
  ghost predicate Linked(chain: seq<Chunk>)
    reads chain
  {
    Distinct(chain) && NextsOk(chain, |chain|) && PrevsOk(chain)
  }

  ghost function Parts(chain: seq<Chunk>): (r: seq<Bytes>)
    reads chain
    ensures |r| == |chain| && forall i :: 0 <= i < |chain| ==> r[i] == chain[i].data
  {
    seq(|chain|, i requires 0 <= i < |chain| reads chain => chain[i].data)
  }

  ghost function Prevs(chain: seq<Chunk>): (r: seq<Chunk?>)
    requires Linked(chain)
    reads chain
    ensures |r| == |chain| && forall i {:trigger r[i]} :: 0 <= i < |chain| ==>
              r[i] == chain[i].prev && r[i] == PrevAt(chain, i)
  {
    seq(|chain|, i requires 0 <= i < |chain| reads chain => chain[i].prev)
  }

  ghost function Nexts(chain: seq<Chunk>): (r: seq<Chunk?>)
    requires Linked(chain)
    reads chain
    ensures |r| == |chain| && forall i {:trigger r[i]} :: 0 <= i < |chain| ==>
              r[i] == chain[i].next && r[i] == NextAt(chain, i)
  {
    seq(|chain|, i requires 0 <= i < |chain| reads chain => chain[i].next)
  }

  /** A chunk linked behind the last one extends the list. */
  lemma LinkedPush(was: seq<Chunk>, c: Chunk)
    requires Distinct(was) && c !in was && PrevsOk(was)
    requires was != [] ==> NextsOk(was, |was| - 1) && was[|was| - 1].next == c
    requires c.next == null && c.prev == TailOf(was)
    ensures Linked(was + [c])
  {
    var chain := was + [c];
    assert NextsOk(chain, |chain|) by {
      forall i | 0 <= i < |chain| ensures chain[i].next == NextAt(chain, i) {
        if i < |was| - 1 { assert chain[i].next == was[i].next; }
      }
    }
    assert PrevsOk(chain) by {
      forall i | 0 <= i < |chain| ensures chain[i].prev == PrevAt(chain, i) {
        if i < |was| { assert chain[i].prev == was[i].prev; }
      }
    }
  }

  function HeadOf(chain: seq<Chunk>): Chunk? { if chain == [] then null else chain[0] }

  function TailOf(chain: seq<Chunk>): Chunk? { if chain == [] then null else chain[|chain| - 1] }

  class Value {
    const payload: nat                 // kDataPerChunk
    const chunkSize: nat               // sizeof(chunk)
    var head: Chunk?
    var totalSize: nat
    var hasChained: bool               // kHasChainedItem
    var parentPins: nat
    ghost var chain: seq<Chunk>

    ghost predicate Valid()
      reads this, chain
    {
      && 0 < payload <= chunkSize
      && Linked(chain) && head == HeadOf(chain)
      && Packed(Parts(chain), payload) && totalSize == |Contents()|
    }

    ghost function Contents(): Bytes
      reads this, chain
    {
      Flatten(Parts(chain))
    }

    constructor (payload: nat, chunkSize: nat)
      requires 0 < payload <= chunkSize
      ensures Valid() && this.payload == payload && this.chunkSize == chunkSize
      ensures chain == [] && parentPins == 0 && !hasChained
    {
      this.payload, this.chunkSize := payload, chunkSize;
      head, totalSize, hasChained, parentPins, chain := null, 0, false, 0, [];
    }

    /** clear(): frees the chunks from first to last, each once. */
    method Clear() returns (ghost freed: seq<Chunk>)
      requires Valid()
      modifies this`head, this`totalSize, this`hasChained, this`chain
      ensures Valid() && chain == [] && Contents() == [] && !hasChained && freed == old(chain)
    {
      var c := head;
      freed := [];
      while c != null
        modifies {}
        invariant |freed| <= |chain| && freed == chain[..|freed|]
        invariant c == if |freed| < |chain| then chain[|freed|] else null
        decreases |chain| - |freed|
      {
        var next := c.next;
        assert Linked(chain) && next == NextAt(chain, |freed|);
        freed := freed + [c];
        c := next;
      }
      head, totalSize, hasChained, chain := null, 0, false, [];
    }

    /** Links a new chunk behind the last one. */
    method Append(c: Chunk, tail: Chunk?)
      requires Linked(chain) && head == HeadOf(chain) && tail == TailOf(chain) && c !in chain && c.next == null
      modifies this`head, this`chain, c`prev, if tail == null then {} else {tail}`next
      ensures chain == old(chain) + [c] && Linked(chain) && head == HeadOf(chain)
      ensures Parts(chain) == old(Parts(chain)) + [c.data]
    {
      ghost var was, m := chain, |chain| - 1;
      ghost var prevs, nexts := Prevs(was), Nexts(was);
      c.prev := tail;
      if tail != null { tail.next := c; }
      if head == null { head := c; }
      chain := chain + [c];
      assert PrevsOk(was) by {
        forall i | 0 <= i < |was| ensures was[i].prev == PrevAt(was, i) {
          assert was[i] != c && was[i].prev == prevs[i];
        }
      }
      assert m >= 0 ==> NextsOk(was, m) by {
        forall i | 0 <= i < m ensures was[i].next == NextAt(was, i) {
          assert was[i] != was[m] && was[i].next == nexts[i];
        }
      }
      LinkedPush(was, c);
    }

    /** A new chunk behind the last one, with as much of `src` as fits. */
    method PushChunk(src: Bytes, tail: Chunk?) returns (c: Chunk, written: nat)
      requires Linked(chain) && head == HeadOf(chain) && tail == TailOf(chain)
      modifies this`head, this`chain, if tail == null then {} else {tail}`next
      ensures fresh(c) && chain == old(chain) + [c] && Linked(chain) && head == HeadOf(chain)
      ensures written == (if |src| < payload then |src| else payload)
      ensures Parts(chain) == old(Parts(chain)) + [src[..written]]
    {
      c := new Chunk();
      written := c.Write(src, payload);
      Append(c, tail);
    }

    ghost predicate Building(tail: Chunk?)
      reads this, chain
    {
      Linked(chain) && head == HeadOf(chain) && tail == TailOf(chain)
    }

    /** The loop of assign_raw(). */
    method FillFrom(data: Bytes)
      requires chain == [] && head == null && payload > 0
      modifies this`head, this`chain
      ensures Linked(chain) && head == HeadOf(chain) && (forall c :: c in chain ==> fresh(c))
      ensures Flatten(Parts(chain)) == data && Packed(Parts(chain), payload)
    {
      var at := 0;
      var tail: Chunk? := null;
      ghost var parts: seq<Bytes> := [];
      while at < |data|
        invariant at <= |data| && Building(tail) && (tail != null ==> fresh(tail))
        invariant forall c :: c in chain ==> fresh(c)
        invariant Parts(chain) == parts && PartlyFilled(data, at, parts, payload)
      {
        tail, at, parts := FillOne(data, at, tail, parts);
      }
      assert data[..|data|] == data;
    }

    /** One round of that loop: cuts off the next part. */
    method FillOne(data: Bytes, at: nat, tail: Chunk?, ghost parts: seq<Bytes>)
      returns (c: Chunk, next: nat, ghost more: seq<Bytes>)
      requires Building(tail) && Parts(chain) == parts && payload > 0 && at < |data|
      requires PartlyFilled(data, at, parts, payload)
      modifies this`head, this`chain, if tail == null then {} else {tail}`next
      ensures fresh(c) && chain == old(chain) + [c] && Building(c) && Parts(chain) == more
      ensures at < next <= |data| && PartlyFilled(data, next, more, payload)
    {
      var written;
      c, written := PushChunk(data[at..], tail);
      OneMorePart(data, at, parts, written, payload);
      more := parts + [data[at..][..written]];
      next := at + written;
    }

    /** assign_raw(): the bytes in chunks, all full but the last. */
    method AssignRaw(data: Bytes)
      requires Valid()
      modifies this`head, this`totalSize, this`hasChained, this`chain
      ensures Valid() && Contents() == data && |chain| == ChunksFor(|data|, payload)
      ensures (forall c :: c in chain ==> fresh(c)) && hasChained == (data != [])
    {
      var freed := Clear();
      totalSize := |data|;
      FillFrom(data);
      PackedCount(Parts(chain), payload);
      assert data == [] ==> |chain| == 0 by { Quotient(0, payload - 1, payload); }
      if head != null { hasChained := true; }
    }

    /** assemble_raw(): the bytes back, or nothing for an empty value. */
    method AssembleRaw() returns (r: Option<Bytes>)
      requires Valid()
      ensures r == if chain == [] then None else Some(Contents())
    {
      if head == null { return None; }
      var bytes: Bytes := [];
      var c := head;
      ghost var i := 0;
      while c != null
        invariant i <= |chain| && c == (if i < |chain| then chain[i] else null)
        invariant bytes == Flatten(Parts(chain)[..i])
        decreases |chain| - i
      {
        assert Parts(chain)[..i + 1] == Parts(chain)[..i] + [c.data];
        FlattenPush(Parts(chain)[..i], c.data);
        bytes := bytes + c.data;
        assert c.next == NextAt(chain, i);
        c := c.next;
        i := i + 1;
      }
      assert Parts(chain)[..|chain|] == Parts(chain);
      return Some(bytes);
    }

    /** The loop of copy_chunks_from(). */
    method CopyParts(other: Value)
      requires chain == [] && head == null && other.Valid() && this != other && payload == other.payload
      modifies this`head, this`chain
      ensures Linked(chain) && head == HeadOf(chain) && (forall c :: c in chain ==> fresh(c))
      ensures Parts(chain) == Parts(other.chain)
    {
      var c := other.head;
      var tail: Chunk? := null;
      ghost var i, parts := 0, Parts(other.chain);
      while c != null
        invariant i <= |other.chain| && c == (if i < |other.chain| then other.chain[i] else null)
        invariant Building(tail) && (tail != null ==> fresh(tail)) && (forall d :: d in chain ==> fresh(d))
        invariant Parts(chain) == parts[..i]
        decreases |other.chain| - i
      {
        assert c.next == NextAt(other.chain, i);
        var next := c.next;
        tail := CopyOne(c.data, tail, parts, i);
        c := next;
        i := i + 1;
      }
      assert parts[..|parts|] == parts;
    }

    /** One round of that loop. */
    method CopyOne(bytes: Bytes, tail: Chunk?, ghost parts: seq<Bytes>, ghost i: nat) returns (c: Chunk)
      requires Building(tail) && i < |parts| && Parts(chain) == parts[..i] && bytes == parts[i] && |bytes| <= payload
      modifies this`head, this`chain, if tail == null then {} else {tail}`next
      ensures fresh(c) && chain == old(chain) + [c] && Building(c) && Parts(chain) == parts[..i + 1]
    {
      assert bytes[..|bytes|] == bytes && parts[..i + 1] == parts[..i] + [bytes];
      var written;
      c, written := PushChunk(bytes, tail);
    }

    /** Copying: new chunks with the same bytes; the source keeps its own. */
    method CopyFrom(other: Value)
      requires Valid() && other.Valid() && chain == [] && this != other && payload == other.payload && !hasChained
      modifies this`head, this`totalSize, this`hasChained, this`chain
      ensures Valid() && Contents() == other.Contents() && Parts(chain) == Parts(other.chain)
      ensures (forall c :: c in chain ==> fresh(c)) && hasChained == (chain != [])
    {
      ghost var parts := Parts(other.chain);
      totalSize := other.totalSize;
      CopyParts(other);
      assert Parts(chain) == parts;
      if head != null { hasChained := true; }
    }

    /** chunk_count(). */
    method ChunkCount() returns (n: nat)
      requires Valid()
      ensures n == |chain| && n == ChunksFor(totalSize, payload)
    {
      PackedCount(Parts(chain), payload);
      n := 0;
      var c := head;
      while c != null
        invariant n <= |chain| && c == (if n < |chain| then chain[n] else null)
        decreases |chain| - n
      {
        assert c.next == NextAt(chain, n);
        c := c.next;
        n := n + 1;
      }
    }

    /** overhead(): with the payload bytes, all the memory of all the chunks. */
    method Overhead() returns (n: int)
      requires Valid()
      ensures |chain| * chunkSize == totalSize + n
    {
      var count := ChunkCount();
      var unused := 0;
      var c := head;
      ghost var i := 0;
      while c != null
        invariant i <= |chain| && c == (if i < |chain| then chain[i] else null)
        invariant unused == Unused(Parts(chain)[..i], payload)
        decreases |chain| - i
      {
        assert Parts(chain)[..i + 1][..i] == Parts(chain)[..i] && |c.data| <= payload;
        unused := unused + (payload - |c.data|);
        assert c.next == NextAt(chain, i);
        c := c.next;
        i := i + 1;
      }
      assert Parts(chain)[..|chain|] == Parts(chain);
      UsedAndUnused(Parts(chain), payload);
      n := count * (chunkSize - payload) + unused;
      Spread(count, chunkSize, payload);
    }

    ghost predicate Pinned()
      reads this, chain
    {
      parentPins > 0 || exists i :: 0 <= i < |chain| && chain[i].pins > 0
    }

    /** try_cascading_evict(): frees every chunk, or changes nothing when something is pinned. */
    method TryCascadingEvict() returns (ok: bool, ghost freed: seq<Chunk>)
      requires Valid()
      modifies this`head, this`totalSize, this`hasChained, this`chain
      ensures Valid() && ok == !old(Pinned())
      ensures if ok then freed == old(chain) && chain == [] && Contents() == [] && !hasChained
              else
                && freed == [] && chain == old(chain) && head == old(head)
                && totalSize == old(totalSize) && hasChained == old(hasChained)
    {
      freed := [];
      var c := head;
      ghost var i := 0;
      while c != null
        modifies {}
        invariant i <= |chain| && c == (if i < |chain| then chain[i] else null)
        invariant forall j :: 0 <= j < i ==> chain[j].pins == 0
        decreases |chain| - i
      {
        if c.pins > 0 { return false, []; }
        assert c.next == NextAt(chain, i);
        c := c.next;
        i := i + 1;
      }
      if parentPins > 0 { return false, []; }
      freed := Clear();
      ok := true;
    }
  }

  /** The first `at` bytes have been cut into parts. */
  ghost predicate PartlyFilled(data: Bytes, at: nat, parts: seq<Bytes>, payload: nat)
    requires at <= |data|
  {
    Flatten(parts) == data[..at] && Packed(parts, payload) && (at < |data| ==> AllFull(parts, payload))
  }

  lemma OneMorePart(data: Bytes, at: nat, parts: seq<Bytes>, written: nat, payload: nat)
    requires at < |data| && PartlyFilled(data, at, parts, payload) && payload > 0
    requires written == if |data| - at < payload then |data| - at else payload
    ensures PartlyFilled(data, at + written, parts + [data[at..][..written]], payload)
  {
    FlattenPush(parts, data[at..][..written]);
    assert data[..at + written] == data[..at] + data[at..][..written];
  }

  lemma Spread(count: nat, size: nat, payload: nat)
    ensures count * (size - payload) + count * payload == count * size
  {
  }
}
