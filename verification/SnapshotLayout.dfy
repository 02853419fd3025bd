/**
 Where every field of a serialized snapshot is, by offset: the byte order of integers,
 the header, the configuration, the state each kind of cache carries, and the items.
 What inspect_serialization_header() says of a saved snapshot follows.
 */
module SnapshotLayout {
  import Arithmetic
  import opened Basics
  import opened Crc32
  import opened Serde
  import opened Sharded
  import opened Snapshot

  // ------------------------------------------------------------------
  // Integers
  // ------------------------------------------------------------------

  /** Byte `i` of an integer is its digit of weight 256^i. */
  lemma {:induction false} LittleEndianAt(n: nat, w: nat, i: nat)
    requires i < w
    ensures LittleEndian(n, w)[i] == n / Pow256(i) % 256
    decreases w
  {
    if i != 0 {
      LittleEndianAt(n / 256, w - 1, i - 1);
      DivideTwice(n, Pow256(i - 1));
    }
  }

  lemma DivideTwice(n: nat, d: nat)
    requires d > 0
    ensures n / 256 / d == n / (256 * d)
  {
    var q, r := n / 256 / d, n / 256 % d;
    assert n / 256 == q * d + r && n == 256 * (n / 256) + n % 256;
    assert n == q * (256 * d) + (256 * r + n % 256);
    Arithmetic.Quotient(q, 256 * r + n % 256, 256 * d);
  }

  lemma NumberAt(n: Word32, data: Bytes, at: nat)
    requires at + 4 <= |data| && data[at..at + 4] == LittleEndian(n, 4)
    ensures FieldAt(data, at, 4) == n
  {
    NumberBack(n);
  }

  // ------------------------------------------------------------------
  // Records
  // ------------------------------------------------------------------

  /** Where field `k` starts. */
  function Offset(widths: seq<nat>, k: nat): nat
    requires k <= |widths|
  {
    if k == 0 then 0 else Offset(widths, k - 1) + widths[k - 1]
  }

  lemma {:induction false} OffsetFrom(widths: seq<nat>, k: nat)
    requires 0 < k <= |widths|
    ensures Offset(widths, k) == widths[0] + Offset(widths[1..], k - 1)
  {
    if k > 1 { OffsetFrom(widths, k - 1); }
  }

  lemma SliceBehind(a: Bytes, b: Bytes, i: nat, j: nat)
    requires i <= j <= |b|
    ensures (a + b)[|a| + i..|a| + j] == b[i..j]
  {
  }

  lemma SliceFront(a: Bytes, b: Bytes, i: nat, j: nat)
    requires i <= j <= |a|
    ensures (a + b)[i..j] == a[i..j]
  {
  }

  /** `part` is in `s` at `at`. */
  ghost predicate Within(s: Bytes, at: nat, part: Bytes) { at + |part| <= |s| && s[at..at + |part|] == part }

  lemma StillWithin(front: Bytes, last: Bytes, s: Bytes, at: nat, part: Bytes)
    requires s == front + last && Within(front, at, part)
    ensures Within(s, at, part)
  {
    SliceFront(front, last, at, at + |part|);
  }

  lemma WithinLast(front: Bytes, last: Bytes, s: Bytes, at: nat, part: Bytes)
    requires s == front + last && Within(last, at, part)
    ensures Within(s, |front| + at, part)
  {
    SliceBehind(front, last, at, at + |part|);
  }

  /** A record's field `k` is at the sum of the widths before it. */
  lemma {:induction false} FieldPlace(fs: seq<Bytes>, widths: seq<nat>, k: nat)
    requires Shaped(fs, widths) && k < |fs|
    ensures var at := Offset(widths, k);
            at + widths[k] <= |EncodeFields(fs)| && EncodeFields(fs)[at..at + widths[k]] == fs[k]
  {
    var rest := EncodeFields(fs[1..]);
    if k == 0 {
      assert (fs[0] + rest)[..|fs[0]|] == fs[0];
    } else {
      FieldPlace(fs[1..], widths[1..], k - 1);
      OffsetFrom(widths, k);
      var at := Offset(widths[1..], k - 1);
      SliceBehind(fs[0], rest, at, at + widths[k]);
    }
  }

  lemma {:induction false} RecordSize(fs: seq<Bytes>, widths: seq<nat>)
    requires Shaped(fs, widths)
    ensures |EncodeFields(fs)| == Offset(widths, |widths|)
  {
    if fs != [] {
      RecordSize(fs[1..], widths[1..]);
      OffsetFrom(widths, |widths|);
    }
  }

  lemma ConfigOffsets()
    ensures var w := CONFIG_WIDTHS;
            && Offset(w, 0) == 0 && Offset(w, 1) == 4 && Offset(w, 2) == 12 && Offset(w, 3) == 13 && Offset(w, 4) == 14
            && Offset(w, 5) == 15 && Offset(w, 6) == 16 && Offset(w, 7) == 20 && Offset(w, 8) == 28
            && Offset(w, 9) == 36 && Offset(w, 10) == 37 && Offset(w, 11) == 41 && Offset(w, 12) == 49
            && Offset(w, 13) == 53
  {
  }

  /** Field `k` of a configuration is the `w` bytes at `at`. */
  lemma ConfigField(c: Config, s: Bytes, k: nat, at: nat, w: nat)
    requires s == EncodeConfig(c) && k < 13 && at == Offset(CONFIG_WIDTHS, k) && w == CONFIG_WIDTHS[k]
    ensures at + w <= |s| && s[at..at + w] == ConfigFields(c)[k]
  {
    ConfigShaped(c);
    FieldPlace(ConfigFields(c), CONFIG_WIDTHS, k);
  }

  lemma ConfigFront(c: Config, s: Bytes)
    requires s == EncodeConfig(c) && |s| == 53
    ensures s[0..4] == LittleEndian(c.refreshTime, 4) && s[4..12] == c.refreshRatio
    ensures s[12..13] == Flag(c.updateOnWrite)
    ensures s[13..14] == Flag(c.updateOnRead) && s[14..15] == Flag(c.tryLock) && s[15..16] == [c.insertionSpec]
    ensures s[16..20] == LittleEndian(c.reconfigureSecs, 4)
  {
    ConfigOffsets();
    ConfigField(c, s, 0, 0, 4);
    ConfigField(c, s, 1, 4, 8);
    ConfigField(c, s, 2, 12, 1);
    ConfigField(c, s, 3, 13, 1);
    ConfigField(c, s, 4, 14, 1);
    ConfigField(c, s, 5, 15, 1);
    ConfigField(c, s, 6, 16, 4);
  }

  lemma ConfigRear(c: Config, s: Bytes)
    requires s == EncodeConfig(c) && |s| == 53
    ensures s[20..28] == c.hotRatio && s[28..36] == c.warmRatio && s[36..37] == Flag(c.rebalance)
    ensures s[37..41] == LittleEndian(c.sketchWindow, 4) && s[41..49] == c.sketchError
    ensures s[49..53] == LittleEndian(c.sketchHashes, 4)
  {
    ConfigOffsets();
    ConfigField(c, s, 7, 20, 8);
    ConfigField(c, s, 8, 28, 8);
    ConfigField(c, s, 9, 36, 1);
    ConfigField(c, s, 10, 37, 4);
    ConfigField(c, s, 11, 41, 8);
    ConfigField(c, s, 12, 49, 4);
  }

  lemma ConfigSize(c: Config)
    ensures |EncodeConfig(c)| == 53
  {
    ConfigShaped(c);
    RecordSize(ConfigFields(c), CONFIG_WIDTHS);
    ConfigOffsets();
  }

  /** The 53 bytes of a configuration, field by field. */
  lemma ConfigLayout(c: Config)
    ensures var s := EncodeConfig(c);
            && |s| == 53 && s[0..4] == LittleEndian(c.refreshTime, 4) && s[4..12] == c.refreshRatio
            && s[12..13] == Flag(c.updateOnWrite) && s[13..14] == Flag(c.updateOnRead) && s[14..15] == Flag(c.tryLock)
            && s[15..16] == [c.insertionSpec] && s[16..20] == LittleEndian(c.reconfigureSecs, 4)
            && s[20..28] == c.hotRatio && s[28..36] == c.warmRatio && s[36..37] == Flag(c.rebalance)
            && s[37..41] == LittleEndian(c.sketchWindow, 4) && s[41..49] == c.sketchError
            && s[49..53] == LittleEndian(c.sketchHashes, 4)
  {
    ConfigSize(c);
    ConfigFront(c, EncodeConfig(c));
    ConfigRear(c, EncodeConfig(c));
  }

  /** The 20 bytes of a list state: two words, then twelve zero bytes. */
  lemma ListLayout(l: ListState)
    ensures var s := EncodeList(l);
            && |s| == 20 && s[0..4] == LittleEndian(l.insertionPoint, 4) && s[4..8] == LittleEndian(l.tailSize, 4)
            && s[8..12] == s[12..16] == s[16..20] == [0, 0, 0, 0]
  {
    var zero := LittleEndian(0, 4);
    ListFields([LittleEndian(l.insertionPoint, 4), LittleEndian(l.tailSize, 4), zero, zero, zero], EncodeList(l));
    ZeroWord();
  }

  lemma ListFields(fs: seq<Bytes>, s: Bytes)
    requires Shaped(fs, LIST_WIDTHS) && s == EncodeFields(fs)
    ensures |s| == 20 && s[0..4] == fs[0] && s[4..8] == fs[1] && s[8..12] == fs[2] && s[12..16] == fs[3]
    ensures s[16..20] == fs[4]
  {
    RecordSize(fs, LIST_WIDTHS);
    assert Offset(LIST_WIDTHS, 2) == 8 && Offset(LIST_WIDTHS, 4) == 16;
    FieldPlace(fs, LIST_WIDTHS, 0);
    FieldPlace(fs, LIST_WIDTHS, 1);
    FieldPlace(fs, LIST_WIDTHS, 2);
    FieldPlace(fs, LIST_WIDTHS, 3);
    FieldPlace(fs, LIST_WIDTHS, 4);
  }

  lemma ZeroWord()
    ensures LittleEndian(0, 4) == [0, 0, 0, 0]
  {
    assert LittleEndian(0, 2) == [0, 0];
  }

  /** Word `i` of the sketch is at four times its number. */
  ghost predicate WordAt(ws: seq<Word32>, i: nat)
    requires i < |ws|
  {
    Within(EncodeWords(ws), 4 * i, LittleEndian(ws[i], 4))
  }

  lemma WordsLast(ws: seq<Word32>)
    requires ws != []
    ensures EncodeWords(ws) == EncodeWords(ws[..|ws| - 1]) + LittleEndian(ws[|ws| - 1], 4)
  {
  }

  lemma StillWordAt(ws: seq<Word32>, i: nat)
    requires i < |ws| - 1 && WordAt(ws[..|ws| - 1], i)
    ensures WordAt(ws, i)
  {
    var m, word := |ws| - 1, LittleEndian(ws[i], 4);
    var all, front, last := EncodeWords(ws), EncodeWords(ws[..m]), LittleEndian(ws[m], 4);
    WordsLast(ws);
    StillWithin(front, last, all, 4 * i, word);
  }

  lemma LastWordAt(ws: seq<Word32>)
    requires ws != []
    ensures WordAt(ws, |ws| - 1)
  {
    var m := |ws| - 1;
    WordsLast(ws);
    WordsLength(ws[..m]);
    assert Within(LittleEndian(ws[m], 4), 0, LittleEndian(ws[m], 4));
    WithinLast(EncodeWords(ws[..m]), LittleEndian(ws[m], 4), EncodeWords(ws), 0, LittleEndian(ws[m], 4));
  }

  lemma {:induction false} WordsLayout(ws: seq<Word32>, i: nat)
    requires i < |ws|
    ensures WordAt(ws, i)
  {
    if i < |ws| - 1 {
      WordsLayout(ws[..|ws| - 1], i);
      StillWordAt(ws, i);
    } else {
      LastWordAt(ws);
    }
  }

  lemma {:induction false} WordsLength(ws: seq<Word32>)
    ensures |EncodeWords(ws)| == 4 * |ws|
  {
    if ws != [] { WordsLength(ws[..|ws| - 1]); }
  }

  lemma TrailerLayout(fs: seq<Bytes>, s: Bytes)
    requires Shaped(fs, [4, 1, 1]) && s == EncodeFields(fs)
    ensures |s| == 6 && s[0..4] == fs[0] && s[4] == fs[1][0] && s[5] == fs[2][0]
  {
    RecordSize(fs, [4, 1, 1]);
    FieldPlace(fs, [4, 1, 1], 0);
    FieldPlace(fs, [4, 1, 1], 1);
    FieldPlace(fs, [4, 1, 1], 2);
    assert s[4..5][0] == s[4] && s[5..6][0] == s[5];
  }

  /** Two parts and a trailer of six bytes. */
  lemma TrailerAt(a: Bytes, b: Bytes, tail: Bytes, s: Bytes)
    requires s == a + (b + tail) && |tail| == 6
    ensures var n := |a| + |b|;
            && |s| == n + 6 && s[..|a|] == a && s[|a|..n] == b
            && s[n..n + 4] == tail[0..4] && s[n + 4] == tail[4] && s[n + 5] == tail[5]
  {
    SplitInThree(a, b, tail, s);
    var n := |a| + |b|;
    assert s[n..n + 4] == s[n..][0..4];
  }

  lemma ItemTrailer(i: Item, tail: Bytes)
    requires tail == EncodeFields([LittleEndian(i.updateTime, 4), [i.flags], [i.queue]])
    ensures |tail| == 6 && tail[0..4] == LittleEndian(i.updateTime, 4) && tail[4] == i.flags && tail[5] == i.queue
  {
    TrailerLayout([LittleEndian(i.updateTime, 4), [i.flags], [i.queue]], tail);
  }

  /** An item: key, value, then six bytes. */
  lemma ItemLayout(i: Item)
    ensures var s, k, v := EncodeItem(i), |Encode(i.key)|, |Encode(i.value)|;
            && |s| == k + v + 6 && s[..k] == Encode(i.key) && s[k..k + v] == Encode(i.value)
            && s[k + v..k + v + 4] == LittleEndian(i.updateTime, 4)
            && s[k + v + 4] == i.flags && s[k + v + 5] == i.queue
  {
    var tail := EncodeFields([LittleEndian(i.updateTime, 4), [i.flags], [i.queue]]);
    ItemTrailer(i, tail);
    TrailerAt(Encode(i.key), Encode(i.value), tail, EncodeItem(i));
  }

  lemma SplitInThree(a: Bytes, b: Bytes, c: Bytes, s: Bytes)
    requires s == a + (b + c)
    ensures |s| == |a| + |b| + |c| && s[..|a|] == a && s[|a|..|a| + |b|] == b && s[|a| + |b|..] == c
  {
  }

  /** The length and the bytes of a value that is a run of bytes. */
  lemma RawLayout(v: Val)
    requires v.FixedV? || v.StrV? || v.BlobV?
    requires |v.bytes| < U32
    ensures |Encode(v)| == 4 + |v.bytes| && FieldAt(Encode(v), 0, 4) == |v.bytes| && Encode(v)[4..] == v.bytes
  {
    NumberAt(|v.bytes|, Encode(v), 0);
  }

  /** Element `i` of a vector is behind the elements before it. */
  ghost predicate ElementAt(vs: seq<Val>, i: nat)
    requires i < |vs|
  {
    Within(EncodeAll(vs), |EncodeAll(vs[..i])|, Encode(vs[i]))
  }

  lemma StillElementAt(vs: seq<Val>, i: nat)
    requires i < |vs| - 1 && ElementAt(vs[..|vs| - 1], i)
    ensures ElementAt(vs, i)
  {
    var m := |vs| - 1;
    assert vs[..m][..i] == vs[..i];
    StillWithin(EncodeAll(vs[..m]), Encode(vs[m]), EncodeAll(vs), |EncodeAll(vs[..i])|, Encode(vs[i]));
  }

  lemma LastElementAt(vs: seq<Val>)
    requires vs != []
    ensures ElementAt(vs, |vs| - 1)
  {
    var m := |vs| - 1;
    assert Within(Encode(vs[m]), 0, Encode(vs[m]));
    WithinLast(EncodeAll(vs[..m]), Encode(vs[m]), EncodeAll(vs), 0, Encode(vs[m]));
  }

  /** A vector's elements are one after the other. */
  lemma {:induction false} ElementsLayout(vs: seq<Val>, i: nat)
    requires i < |vs|
    ensures ElementAt(vs, i)
  {
    if i < |vs| - 1 {
      ElementsLayout(vs[..|vs| - 1], i);
      StillElementAt(vs, i);
    } else {
      LastElementAt(vs);
    }
  }

  // ------------------------------------------------------------------
  // The whole snapshot
  // ------------------------------------------------------------------

  const HEADER_WIDTHS: seq<nat> := [4, 4, 4, 4, 4, 4, 8, 4]

  /** Nested concatenation is the record and what follows it. */
  lemma {:induction false} RecordThen(fs: seq<Bytes>, rest: Bytes)
    requires fs != []
    ensures EncodeFields(fs) + rest == fs[0] + (EncodeFields(fs[1..]) + rest)
  {
    Assoc(fs[0], EncodeFields(fs[1..]), rest);
  }

  lemma FrameIsRecord(fs: seq<Bytes>, payload: Bytes)
    requires |fs| == 8
    ensures EncodeFields(fs) + payload
         == fs[0] + (fs[1] + (fs[2] + (fs[3] + (fs[4] + (fs[5] + (fs[6] + (fs[7] + payload)))))))
  {
    RecordFrom4(fs[4..], payload);
    RecordThen(fs, payload);
    RecordThen(fs[1..], payload);
    RecordThen(fs[2..], payload);
    RecordThen(fs[3..], payload);
    assert fs[1..][1..] == fs[2..] && fs[2..][1..] == fs[3..] && fs[3..][1..] == fs[4..];
  }

  lemma RecordFrom4(fs: seq<Bytes>, payload: Bytes)
    requires |fs| == 4
    ensures EncodeFields(fs) + payload == fs[0] + (fs[1] + (fs[2] + (fs[3] + payload)))
  {
    RecordThen(fs, payload);
    RecordThen(fs[1..], payload);
    RecordThen(fs[2..], payload);
    RecordThen(fs[3..], payload);
    assert fs[1..][1..] == fs[2..] && fs[2..][1..] == fs[3..] && fs[3..][1..] == [];
    assert EncodeFields([]) + payload == payload;
  }

  lemma HeaderOffsets()
    ensures var w := HEADER_WIDTHS;
            && Offset(w, 0) == 0 && Offset(w, 1) == 4 && Offset(w, 2) == 8 && Offset(w, 3) == 12 && Offset(w, 4) == 16
            && Offset(w, 5) == 20 && Offset(w, 6) == 24 && Offset(w, 7) == 32 && Offset(w, 8) == 36
  {
  }

  lemma HeaderField(fs: seq<Bytes>, head: Bytes, data: Bytes, k: nat, at: nat, w: nat)
    requires Shaped(fs, HEADER_WIDTHS) && k < 8 && head == EncodeFields(fs) && head <= data
    requires at == Offset(HEADER_WIDTHS, k) && w == HEADER_WIDTHS[k]
    ensures at + w <= |data| && data[at..at + w] == fs[k]
  {
    FieldPlace(fs, HEADER_WIDTHS, k);
    assert data[at..at + w] == head[at..at + w];
  }

  lemma HeaderFields(fs: seq<Bytes>, data: Bytes)
    requires Shaped(fs, HEADER_WIDTHS) && EncodeFields(fs) <= data && |data| >= 36
    ensures data[0..4] == fs[0] && data[4..8] == fs[1] && data[8..12] == fs[2] && data[12..16] == fs[3]
    ensures data[16..20] == fs[4] && data[20..24] == fs[5] && data[24..32] == fs[6] && data[32..36] == fs[7]
  {
    var head := EncodeFields(fs);
    HeaderOffsets();
    HeaderField(fs, head, data, 0, 0, 4);
    HeaderField(fs, head, data, 1, 4, 4);
    HeaderField(fs, head, data, 2, 8, 4);
    HeaderField(fs, head, data, 3, 12, 4);
    HeaderField(fs, head, data, 4, 16, 4);
    HeaderField(fs, head, data, 5, 20, 4);
    HeaderField(fs, head, data, 6, 24, 8);
    HeaderField(fs, head, data, 7, 32, 4);
  }

  lemma FrameOf(fs: seq<Bytes>, payload: Bytes, data: Bytes)
    requires Shaped(fs, HEADER_WIDTHS) && |data| == 36 + |payload|
    requires data == fs[0] + (fs[1] + (fs[2] + (fs[3] + (fs[4] + (fs[5] + (fs[6] + (fs[7] + payload)))))))
    ensures data[0..4] == fs[0] && data[4..8] == fs[1] && data[8..12] == fs[2] && data[12..16] == fs[3]
    ensures data[16..20] == fs[4] && data[20..24] == fs[5] && data[24..32] == fs[6] && data[32..36] == fs[7]
  {
    FrameIsRecord(fs, payload);
    assert EncodeFields(fs) <= EncodeFields(fs) + payload;
    HeaderFields(fs, data);
  }

  /** Eight header fields and a payload, whatever they are. */
  lemma FrameFields(a: Bytes, b: Bytes, c: Bytes, d: Bytes, e: Bytes, f: Bytes, g: Bytes, h: Bytes, payload: Bytes,
                    data: Bytes)
    requires |a| == |b| == |c| == |d| == |e| == |f| == |h| == 4 && |g| == 8 && |data| == 36 + |payload|
    requires data == a + (b + (c + (d + (e + (f + (g + (h + payload)))))))
    ensures data[0..4] == a && data[4..8] == b && data[8..12] == c && data[12..16] == d
    ensures data[16..20] == e && data[20..24] == f && data[24..32] == g && data[32..36] == h
  {
    FrameOf([a, b, c, d, e, f, g, h], payload, data);
  }

  /** The header fields of a frame, by offset. */
  lemma FrameLayout(count: Word32, mm: Word32, features: Word64, checksum: Bytes, payload: Bytes, data: Bytes)
    requires |checksum| == 4 && data == Framed(count, mm, features, checksum, payload)
    ensures |data| == 36 + |payload| && data[36..] == payload && data[32..36] == checksum
    ensures data[0..4] == LittleEndian(MAGIC, 4) && data[4..8] == LittleEndian(VERSION, 4)
    ensures data[8..12] == LittleEndian(count, 4) && data[12..16] == LittleEndian(mm, 4)
    ensures data[16..20] == LittleEndian(36, 4) && data[20..24] == LittleEndian(0, 4)
    ensures data[24..32] == LittleEndian(features, 8)
  {
    FramedPayload(HEADER_SIZE, count, mm, features, checksum, payload);
    FrameFields(LittleEndian(MAGIC, 4), LittleEndian(VERSION, 4), LittleEndian(count, 4), LittleEndian(mm, 4),
                LittleEndian(36, 4), LittleEndian(0, 4), LittleEndian(features, 8), checksum, payload, data);
  }

  lemma MagicBytes()
    ensures LittleEndian(MAGIC, 4) == [0x4C, 0x52, 0x55, 0x53]
  {
    assert LittleEndian(0x5355, 2) == [0x55, 0x53];
  }

  /** Every field of a serialized snapshot's header. */
  lemma HeaderLayout(snap: Snap)
    requires |snap.items| < U32
    ensures var data, payload := Serialized(snap), Payload(snap);
            && |data| == 36 + |payload| && data[36..] == payload && data[0..4] == [0x4C, 0x52, 0x55, 0x53]
            && FieldAt(data, 4, 4) == 5 && FieldAt(data, 8, 4) == |snap.items| && FieldAt(data, 12, 4) == snap.mm
            && FieldAt(data, 16, 4) == 36 && FieldAt(data, 20, 4) == 0
            && data[24..32] == LittleEndian(snap.features, 8) && data[32..36] == WordBytes(Crc(payload))
  {
    var data, payload := Serialized(snap), Payload(snap);
    FrameLayout(|snap.items|, snap.mm, snap.features, WordBytes(Crc(payload)), payload, data);
    MagicBytes();
    NumberAt(5, data, 4);
    NumberAt(|snap.items|, data, 8);
    NumberAt(snap.mm, data, 12);
    NumberAt(36, data, 16);
    NumberAt(0, data, 20);
  }

  /** The bytes between configuration and items, by kind: LRU and sharded LRU, TinyLFU and W-TinyLFU, others. */
  function ExtraSize(snap: Snap): nat {
    if snap.mm == 0 || snap.mm == 5 then 20
    else if snap.mm == 2 || snap.mm == 3 then 4 + 4 * |snap.sketch|
    else 0
  }

  lemma ExtraLayout(snap: Snap)
    ensures EncodeExtra(snap) == (if snap.mm == 0 || snap.mm == 5 then EncodeList(snap.list)
                                  else if snap.mm == 2 || snap.mm == 3
                                  then LittleEndian(|snap.sketch|, 4) + EncodeWords(snap.sketch)
                                  else [])
    ensures |EncodeExtra(snap)| == ExtraSize(snap)
  {
    ListLayout(snap.list);
    WordsLength(snap.sketch);
  }

  /** What the payload is, by offset: configuration, the state of its kind, items. */
  lemma PayloadLayout(snap: Snap)
    ensures var s, e := Payload(snap), ExtraSize(snap);
            && |s| == 53 + e + |EncodeItems(snap.items)| && s[..53] == EncodeConfig(snap.config)
            && s[53..53 + e] == EncodeExtra(snap) && s[53 + e..] == EncodeItems(snap.items)
  {
    ConfigSize(snap.config);
    ExtraLayout(snap);
    SplitInThree(EncodeConfig(snap.config), EncodeExtra(snap), EncodeItems(snap.items), Payload(snap));
  }

  /** What comes back, by kind: the list state of an LRU cache, the sketch of a TinyLFU or W-TinyLFU cache. */
  lemma RestoredByKind(snap: Snap, kt: Ty, vt: Ty)
    requires SnapTyped(snap, kt, vt) && SnapWithin(snap)
    ensures var r := Parse(snap.mm, kt, vt, Serialized(snap));
            && r.Ok? && r.value.config == snap.config && r.value.items == snap.items
            && r.value.features == snap.features
            && (snap.mm == 0 || snap.mm == 5 ==> r.value.list == snap.list)
            && (snap.mm == 2 || snap.mm == 3 ==> r.value.sketch == snap.sketch)
            && (snap.mm != 0 && snap.mm != 5 ==> r.value.list == ListState(0xFFFF_FFFF, 0))
            && (snap.mm != 2 && snap.mm != 3 ==> r.value.sketch == [])
  {
    SnapshotRoundTrip(snap, kt, vt);
  }

  /** Inspection of a saved snapshot: its kind, its number of items, and where its payload starts. */
  lemma InspectSaved(snap: Snap)
    requires |snap.items| < U32
    ensures Inspect(Serialized(snap))
         == if |snap.items| <= 10_000_000 then Info(true, true, true, snap.mm, |snap.items|, 36)
            else Info(true, false, false, 0, |snap.items|, 0)
  {
    var data := Serialized(snap);
    HeaderLayout(snap);
    MagicBytes();
    NumberAt(MAGIC, data, 0);
  }

  // ------------------------------------------------------------------
  // Sharded snapshots
  // ------------------------------------------------------------------

  /** Where the length of shard `i` is, behind the header. */
  function ShardOffset(blobs: seq<Bytes>, i: nat): nat
    requires i <= |blobs|
  {
    if i == 0 then 0 else ShardOffset(blobs, i - 1) + 4 + |blobs[i - 1]|
  }

  lemma {:induction false} ShardOffsetFront(blobs: seq<Bytes>, i: nat)
    requires i < |blobs|
    ensures ShardOffset(blobs, i) == ShardOffset(blobs[..|blobs| - 1], i)
  {
    if i != 0 { ShardOffsetFront(blobs, i - 1); }
  }

  lemma {:induction false} ShardsSize(blobs: seq<Bytes>)
    ensures |EncodeShards(blobs)| == ShardOffset(blobs, |blobs|)
  {
    if blobs != [] {
      ShardsSize(blobs[..|blobs| - 1]);
      ShardOffsetFront(blobs, |blobs| - 1);
    }
  }

  /** A shard's length in four bytes and then its own blob. */
  function Span(blob: Bytes): Bytes { LittleEndian(|blob|, 4) + blob }

  lemma ShardsLast(blobs: seq<Bytes>)
    requires blobs != []
    ensures EncodeShards(blobs) == EncodeShards(blobs[..|blobs| - 1]) + Span(blobs[|blobs| - 1])
  {
  }

  /** Where shard `i` is among the first `n`. */
  ghost predicate Placed(blobs: seq<Bytes>, s: Bytes, i: nat)
    requires i < |blobs|
  {
    Within(s, ShardOffset(blobs, i), Span(blobs[i]))
  }

  lemma LastPlaced(blobs: seq<Bytes>, front: Bytes, s: Bytes)
    requires blobs != [] && front == EncodeShards(blobs[..|blobs| - 1]) && s == front + Span(blobs[|blobs| - 1])
    ensures Placed(blobs, s, |blobs| - 1)
  {
    var m := |blobs| - 1;
    ShardOffsetFront(blobs, m);
    ShardsSize(blobs[..m]);
    assert Within(Span(blobs[m]), 0, Span(blobs[m]));
    WithinLast(front, Span(blobs[m]), s, 0, Span(blobs[m]));
  }

  lemma StillPlaced(blobs: seq<Bytes>, front: Bytes, s: Bytes, i: nat)
    requires i < |blobs| - 1 && Placed(blobs[..|blobs| - 1], front, i) && s == front + Span(blobs[|blobs| - 1])
    ensures Placed(blobs, s, i)
  {
    ShardOffsetFront(blobs, i);
    StillWithin(front, Span(blobs[|blobs| - 1]), s, ShardOffset(blobs, i), Span(blobs[i]));
  }

  lemma PlacedOneMore(blobs: seq<Bytes>, i: nat)
    requires i < |blobs| - 1 && Placed(blobs[..|blobs| - 1], EncodeShards(blobs[..|blobs| - 1]), i)
    ensures Placed(blobs, EncodeShards(blobs), i)
  {
    ShardsLast(blobs);
    StillPlaced(blobs, EncodeShards(blobs[..|blobs| - 1]), EncodeShards(blobs), i);
  }

  lemma PlacedLast(blobs: seq<Bytes>)
    requires blobs != []
    ensures Placed(blobs, EncodeShards(blobs), |blobs| - 1)
  {
    ShardsLast(blobs);
    LastPlaced(blobs, EncodeShards(blobs[..|blobs| - 1]), EncodeShards(blobs));
  }

  /** Each shard is its length and its own blob, behind the shards before it. */
  lemma {:induction false} ShardPlace(blobs: seq<Bytes>, i: nat)
    requires i < |blobs|
    ensures Placed(blobs, EncodeShards(blobs), i)
  {
    if i < |blobs| - 1 {
      ShardPlace(blobs[..|blobs| - 1], i);
      PlacedOneMore(blobs, i);
    } else {
      PlacedLast(blobs);
    }
  }

  /** The header of a sharded snapshot: the number of shards, kind 5, and the checksum of all that follows. */
  lemma ShardedLayout(blobs: seq<Bytes>)
    requires |blobs| < U32
    ensures var data, payload := ShardedBlob(blobs), EncodeShards(blobs);
            && |data| == 36 + |payload| && data[36..] == payload && data[0..4] == [0x4C, 0x52, 0x55, 0x53]
            && FieldAt(data, 4, 4) == 5 && FieldAt(data, 8, 4) == |blobs| && FieldAt(data, 12, 4) == 5
            && FieldAt(data, 16, 4) == 36 && data[32..36] == WordBytes(Crc(payload))
  {
    var data, payload := ShardedBlob(blobs), EncodeShards(blobs);
    FrameLayout(|blobs|, SHARDED_LRU, 0, WordBytes(Crc(payload)), payload, data);
    MagicBytes();
    NumberAt(5, data, 4);
    NumberAt(|blobs|, data, 8);
    NumberAt(5, data, 12);
    NumberAt(36, data, 16);
  }

  // ------------------------------------------------------------------
  // Limits, and the sign of a double
  // ------------------------------------------------------------------

  /** How long a string, a blob and a vector may be and still come back. */
  lemma LimitsAre(b: Bytes, vs: seq<Val>, t: Ty, rest: Bytes)
    requires forall i :: 0 <= i < |vs| ==> HasType(vs[i], t) && WithinLimits(vs[i])
    ensures Decode(Str, Encode(StrV(b)) + rest) == Ok((StrV(b), rest)) <==> |b| <= 1_000_000
    ensures Decode(Blob, Encode(BlobV(b)) + rest) == Ok((BlobV(b), rest)) <==> |b| <= 100_000_000
    ensures Decode(VecOf(t), Encode(VecV(vs)) + rest) == Ok((VecV(vs), rest)) <==> |vs| <= 10_000_000
  {
    RoundTrip(Str, StrV(b), rest);
    RoundTrip(Blob, BlobV(b), rest);
    RoundTrip(VecOf(t), VecV(vs), rest);
  }

  /** A double is at least zero if it is not a NaN and is positive, or either zero. */
  lemma NonNegativeMeans(d: Double)
    ensures var word := ValueOf(d);
            var negative, magnitude := word >= 0x8000_0000_0000_0000, word % 0x8000_0000_0000_0000;
            NonNegative(d) <==> magnitude <= 0x7FF0_0000_0000_0000 && (negative ==> magnitude == 0)
  {
    ValueOfBound(d);
    Pow256Eight();
  }
}
