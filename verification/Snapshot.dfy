/**
 The serialized form of one cache: a 36-byte header whose last field is the
 CRC-32 of the payload, then the configuration, the state its kind of cache
 carries, and the items. parse_serialized_data() checks the whole header
 before it decodes anything.
 */
module Snapshot {
  import opened Basics
  import opened Crc32
  import opened Serde

  const MAGIC: nat := 0x5355524C
  const VERSION: nat := 5
  const HEADER_SIZE: nat := 36
  const MAX_ITEMS: nat := 10_000_000
  const MAX_SKETCH: nat := 1_000_000
  const NO_POSITION: nat := 0xFFFF_FFFF
  const SIGN_BIT: nat := 0x8000_0000_0000_0000

  // mm_type_id
  const LRU: nat := 0
  const TWO_Q: nat := 1
  const TINY_LFU: nat := 2
  const W_TINY_LFU: nat := 3
  const FIFO: nat := 4
  const SHARDED_LRU: nat := 5

  predicate HasListState(mm: nat) { mm == LRU || mm == SHARDED_LRU }

  predicate HasSketch(mm: nat) { mm == TINY_LFU || mm == W_TINY_LFU }

  type Word32 = n: nat | n < U32
  type Word64 = n: nat | n < U64
  type Double = b: Bytes | |b| == 8 witness [0, 0, 0, 0, 0, 0, 0, 0]    // the bytes of an IEEE 754 double

  datatype Config = Config(
    refreshTime: Word32, refreshRatio: Double, updateOnWrite: bool, updateOnRead: bool, tryLock: bool,
    insertionSpec: Byte, reconfigureSecs: Word32, hotRatio: Double, warmRatio: Double, rebalance: bool,
    sketchWindow: Word32, sketchError: Double, sketchHashes: Word32)

  /** `d >= 0.0` of the double with these bytes, lowest first: not a NaN, and the sign clear or minus zero. */
  predicate NonNegative(d: Double) {
    var word := ValueOf(d);
    var exponent, fraction := word / 0x10_0000_0000_0000 % 0x800, word % 0x10_0000_0000_0000;
    !(exponent == 0x7FF && fraction != 0) && word <= SIGN_BIT
  }

  /** mm_lru_config::validate(), as far as the fields come from a snapshot. */
  predicate Applies(c: Config) { c.insertionSpec <= 7 && NonNegative(c.refreshRatio) }

  datatype ListState = ListState(insertionPoint: Word32, tailSize: Word32)

  datatype Item = Item(key: Val, value: Val, updateTime: Word32, flags: Byte, queue: Byte)

  datatype Snap = Snap(
    mm: Word32, features: Word64, config: Config, list: ListState, sketch: seq<Word32>, items: seq<Item>)

  datatype Parsed = Parsed(
    features: Word64, config: Config, list: ListState, sketch: seq<Word32>, items: seq<Item>)

  // ------------------------------------------------------------------
  // Records of fixed-width fields
  // ------------------------------------------------------------------

  function EncodeFields(fs: seq<Bytes>): Bytes {
    if fs == [] then [] else fs[0] + EncodeFields(fs[1..])
  }

  function ReadFields(widths: seq<nat>, s: Bytes): Result<(seq<Bytes>, Bytes)> {
    if widths == [] then Ok(([], s)) else
    var (f, s1) :- ReadRaw(s, widths[0]);
    var (fs, s2) :- ReadFields(widths[1..], s1);
    Ok(([f] + fs, s2))
  }

  ghost predicate Shaped(fs: seq<Bytes>, widths: seq<nat>) {
    |fs| == |widths| && forall i :: 0 <= i < |fs| ==> |fs[i]| == widths[i]
  }

  lemma {:induction false} FieldsBack(fs: seq<Bytes>, widths: seq<nat>, rest: Bytes)
    requires Shaped(fs, widths)
    ensures ReadFields(widths, EncodeFields(fs) + rest) == Ok((fs, rest))
  {
    if fs == [] {
      assert EncodeFields(fs) + rest == rest;
    } else {
      var more := EncodeFields(fs[1..]);
      Assoc(fs[0], more, rest);
      ReadRawBack(fs[0], more + rest);
      FieldsBack(fs[1..], widths[1..], rest);
      assert fs == [fs[0]] + fs[1..];
    }
  }

  lemma {:induction false} FieldsShaped(widths: seq<nat>, s: Bytes)
    ensures ReadFields(widths, s).Ok? ==> Shaped(ReadFields(widths, s).value.0, widths)
  {
    if widths != [] && |s| >= widths[0] { FieldsShaped(widths[1..], s[widths[0]..]); }
  }

  function Flag(b: bool): Bytes { [if b then 1 else 0] }

  function IsSet(f: Bytes): bool { f != [0] }

  const CONFIG_WIDTHS: seq<nat> := [4, 8, 1, 1, 1, 1, 4, 8, 8, 1, 4, 8, 4]

  function ConfigFields(c: Config): seq<Bytes> {
    [LittleEndian(c.refreshTime, 4), c.refreshRatio, Flag(c.updateOnWrite), Flag(c.updateOnRead), Flag(c.tryLock),
     [c.insertionSpec], LittleEndian(c.reconfigureSecs, 4), c.hotRatio, c.warmRatio, Flag(c.rebalance),
     LittleEndian(c.sketchWindow, 4), c.sketchError, LittleEndian(c.sketchHashes, 4)]
  }

  lemma FourBytes(f: Bytes)
    requires |f| == 4
    ensures ValueOf(f) < U32
  {
    ValueOfBound(f);
    Pow256Four();
  }

  function Number(f: Bytes): Word32
    requires |f| == 4
  {
    FourBytes(f);
    ValueOf(f)
  }

  function ConfigOf(fs: seq<Bytes>): Config
    requires Shaped(fs, CONFIG_WIDTHS)
  {
    Config(Number(fs[0]), fs[1], IsSet(fs[2]), IsSet(fs[3]), IsSet(fs[4]), fs[5][0], Number(fs[6]), fs[7], fs[8],
           IsSet(fs[9]), Number(fs[10]), fs[11], Number(fs[12]))
  }

  lemma NumberBack(n: Word32)
    ensures Number(LittleEndian(n, 4)) == n
  {
    Pow256Four();
    ValueOfLittleEndian(n, 4);
  }

  lemma ConfigShaped(c: Config)
    ensures Shaped(ConfigFields(c), CONFIG_WIDTHS)
  {
  }

  lemma ConfigNumbers(c: Config)
    requires Shaped(ConfigFields(c), CONFIG_WIDTHS)
    ensures var fs := ConfigFields(c);
            && Number(fs[0]) == c.refreshTime && Number(fs[6]) == c.reconfigureSecs
            && Number(fs[10]) == c.sketchWindow && Number(fs[12]) == c.sketchHashes
  {
    NumberBack(c.refreshTime);
    NumberBack(c.reconfigureSecs);
    NumberBack(c.sketchWindow);
    NumberBack(c.sketchHashes);
  }

  lemma ConfigBack(c: Config)
    ensures Shaped(ConfigFields(c), CONFIG_WIDTHS) && ConfigOf(ConfigFields(c)) == c
  {
    ConfigShaped(c);
    ConfigNumbers(c);
  }

  function EncodeConfig(c: Config): Bytes { EncodeFields(ConfigFields(c)) }

  function DecodeConfig(s: Bytes): Result<(Config, Bytes)> {
    var (fs, rest) :- ReadFields(CONFIG_WIDTHS, s);
    FieldsShaped(CONFIG_WIDTHS, s);
    Ok((ConfigOf(fs), rest))
  }

  lemma ConfigRoundTrip(c: Config, rest: Bytes)
    ensures DecodeConfig(EncodeConfig(c) + rest) == Ok((c, rest))
  {
    ConfigBack(c);
    FieldsBack(ConfigFields(c), CONFIG_WIDTHS, rest);
  }

  const LIST_WIDTHS: seq<nat> := [4, 4, 4, 4, 4]

  /** Two words and twelve reserved bytes. */
  function EncodeList(l: ListState): Bytes {
    EncodeFields([LittleEndian(l.insertionPoint, 4), LittleEndian(l.tailSize, 4),
                  LittleEndian(0, 4), LittleEndian(0, 4), LittleEndian(0, 4)])
  }

  function DecodeList(s: Bytes): Result<(ListState, Bytes)> {
    var (fs, rest) :- ReadFields(LIST_WIDTHS, s);
    FieldsShaped(LIST_WIDTHS, s);
    Ok((ListState(Number(fs[0]), Number(fs[1])), rest))
  }

  lemma ListRoundTrip(l: ListState, rest: Bytes)
    ensures DecodeList(EncodeList(l) + rest) == Ok((l, rest))
  {
    var fs := [LittleEndian(l.insertionPoint, 4), LittleEndian(l.tailSize, 4),
               LittleEndian(0, 4), LittleEndian(0, 4), LittleEndian(0, 4)];
    FieldsBack(fs, LIST_WIDTHS, rest);
    NumberBack(l.insertionPoint);
    NumberBack(l.tailSize);
  }

  // ------------------------------------------------------------------
  // The sketch and the items
  // ------------------------------------------------------------------

  function EncodeWords(ws: seq<Word32>): Bytes {
    if ws == [] then [] else EncodeWords(ws[..|ws| - 1]) + LittleEndian(ws[|ws| - 1], 4)
  }

  function DecodeWords(n: nat, s: Bytes): Result<(seq<Word32>, Bytes)> {
    if n == 0 then Ok(([], s)) else
    var (ws, s1) :- DecodeWords(n - 1, s);
    var (b, s2) :- ReadRaw(s1, 4);
    Ok((ws + [Number(b)], s2))
  }

  lemma WordsOneMore(n: nat, ws: seq<Word32>, w: Word32, s: Bytes, rest: Bytes)
    requires DecodeWords(n, s) == Ok((ws, LittleEndian(w, 4) + rest))
    ensures DecodeWords(n + 1, s) == Ok((ws + [w], rest))
  {
    ReadRawBack(LittleEndian(w, 4), rest);
    NumberBack(w);
  }

  lemma {:induction false} WordsBack(ws: seq<Word32>, rest: Bytes)
    ensures DecodeWords(|ws|, EncodeWords(ws) + rest) == Ok((ws, rest))
    decreases |ws|
  {
    if ws == [] {
      assert EncodeWords(ws) + rest == rest;
    } else {
      var front, w := ws[..|ws| - 1], ws[|ws| - 1];
      assert ws == front + [w];
      Assoc(EncodeWords(front), LittleEndian(w, 4), rest);
      WordsBack(front, LittleEndian(w, 4) + rest);
      WordsOneMore(|front|, front, w, EncodeWords(ws) + rest, rest);
    }
  }

  lemma {:induction false} WordsCounted(n: nat, s: Bytes)
    ensures DecodeWords(n, s).Ok? ==> |DecodeWords(n, s).value.0| == n
  {
    if n != 0 { WordsCounted(n - 1, s); }
  }

  function EncodeItem(i: Item): Bytes {
    Encode(i.key) + (Encode(i.value) + EncodeFields([LittleEndian(i.updateTime, 4), [i.flags], [i.queue]]))
  }

  function DecodeItem(kt: Ty, vt: Ty, s: Bytes): Result<(Item, Bytes)> {
    var (k, s1) :- Decode(kt, s);
    var (v, s2) :- Decode(vt, s1);
    var (fs, s3) :- ReadFields([4, 1, 1], s2);
    FieldsShaped([4, 1, 1], s2);
    Ok((Item(k, v, Number(fs[0]), fs[1][0], fs[2][0]), s3))
  }

  ghost predicate ItemTyped(i: Item, kt: Ty, vt: Ty) { HasType(i.key, kt) && HasType(i.value, vt) }

  ghost predicate ItemWithin(i: Item) { WithinLimits(i.key) && WithinLimits(i.value) }

  lemma ItemBack(i: Item, kt: Ty, vt: Ty, rest: Bytes)
    requires ItemTyped(i, kt, vt) && ItemWithin(i)
    ensures DecodeItem(kt, vt, EncodeItem(i) + rest) == Ok((i, rest))
  {
    var fs := [LittleEndian(i.updateTime, 4), [i.flags], [i.queue]];
    var trailer := EncodeFields(fs);
    Assoc(Encode(i.key), Encode(i.value) + trailer, rest);
    Assoc(Encode(i.value), trailer, rest);
    DecodeEncode(kt, i.key, Encode(i.value) + (trailer + rest));
    DecodeEncode(vt, i.value, trailer + rest);
    FieldsBack(fs, [4, 1, 1], rest);
    NumberBack(i.updateTime);
  }

  lemma ItemSound(kt: Ty, vt: Ty, s: Bytes)
    ensures DecodeItem(kt, vt, s).Ok? ==>
              ItemTyped(DecodeItem(kt, vt, s).value.0, kt, vt) && ItemWithin(DecodeItem(kt, vt, s).value.0)
  {
    DecodeSound(kt, s);
    if Decode(kt, s).Ok? { DecodeSound(vt, Decode(kt, s).value.1); }
  }

  function EncodeItems(items: seq<Item>): Bytes {
    if items == [] then [] else EncodeItems(items[..|items| - 1]) + EncodeItem(items[|items| - 1])
  }

  function DecodeItems(kt: Ty, vt: Ty, n: nat, s: Bytes): Result<(seq<Item>, Bytes)>
    decreases n
  {
    if n == 0 then Ok(([], s)) else
    var (items, s1) :- DecodeItems(kt, vt, n - 1, s);
    var (i, s2) :- DecodeItem(kt, vt, s1);
    Ok((items + [i], s2))
  }

  lemma ItemsOneMore(kt: Ty, vt: Ty, front: seq<Item>, last: Item, a: Bytes, b: Bytes, rest: Bytes)
    requires DecodeItems(kt, vt, |front|, a + (b + rest)) == Ok((front, b + rest))
    requires DecodeItem(kt, vt, b + rest) == Ok((last, rest))
    ensures DecodeItems(kt, vt, |front| + 1, (a + b) + rest) == Ok((front + [last], rest))
  {
    Assoc(a, b, rest);
  }

  ghost predicate ReadsBack(i: Item, kt: Ty, vt: Ty) {
    forall rest: Bytes :: DecodeItem(kt, vt, EncodeItem(i) + rest) == Ok((i, rest))
  }

  lemma {:induction false} ItemsBack(items: seq<Item>, kt: Ty, vt: Ty, rest: Bytes)
    requires forall i :: 0 <= i < |items| ==> ReadsBack(items[i], kt, vt)
    ensures DecodeItems(kt, vt, |items|, EncodeItems(items) + rest) == Ok((items, rest))
    decreases |items|
  {
    if items == [] {
      assert EncodeItems(items) + rest == rest;
    } else {
      var front, last := items[..|items| - 1], items[|items| - 1];
      assert items == front + [last];
      ItemsBack(front, kt, vt, EncodeItem(last) + rest);
      assert ReadsBack(last, kt, vt);
      ItemsOneMore(kt, vt, front, last, EncodeItems(front), EncodeItem(last), rest);
    }
  }

  ghost predicate AllTyped(items: seq<Item>, kt: Ty, vt: Ty) {
    forall i :: 0 <= i < |items| ==> ItemTyped(items[i], kt, vt)
  }

  ghost predicate AllWithin(items: seq<Item>) {
    forall i :: 0 <= i < |items| ==> ItemWithin(items[i])
  }

  lemma TypedItemsBack(items: seq<Item>, kt: Ty, vt: Ty, rest: Bytes)
    requires AllTyped(items, kt, vt) && AllWithin(items)
    ensures DecodeItems(kt, vt, |items|, EncodeItems(items) + rest) == Ok((items, rest))
  {
    forall i | 0 <= i < |items| ensures ReadsBack(items[i], kt, vt) {
      forall r: Bytes ensures DecodeItem(kt, vt, EncodeItem(items[i]) + r) == Ok((items[i], r)) {
        ItemBack(items[i], kt, vt, r);
      }
    }
    ItemsBack(items, kt, vt, rest);
  }

  lemma {:induction false} ItemsSound(kt: Ty, vt: Ty, n: nat, s: Bytes)
    ensures DecodeItems(kt, vt, n, s).Ok? ==>
              var items := DecodeItems(kt, vt, n, s).value.0;
              |items| == n && AllTyped(items, kt, vt) && AllWithin(items)
  {
    if n != 0 {
      ItemsSound(kt, vt, n - 1, s);
      if DecodeItems(kt, vt, n - 1, s).Ok? { ItemSound(kt, vt, DecodeItems(kt, vt, n - 1, s).value.1); }
    }
  }

  // ------------------------------------------------------------------
  // The payload
  // ------------------------------------------------------------------

  function EncodeExtra(snap: Snap): Bytes {
    if HasListState(snap.mm) then EncodeList(snap.list)
    else if HasSketch(snap.mm) then LittleEndian(|snap.sketch|, 4) + EncodeWords(snap.sketch)
    else []
  }

  function Payload(snap: Snap): Bytes {
    EncodeConfig(snap.config) + (EncodeExtra(snap) + EncodeItems(snap.items))
  }

  /** The list state and the sketch this kind of cache carries; the other keeps its default. */
  function DecodeExtra(mm: nat, s: Bytes): Result<((ListState, seq<Word32>), Bytes)> {
    var unset := ListState(NO_POSITION, 0);
    if HasListState(mm) then
      var (l, rest) :- DecodeList(s);
      Ok(((l, []), rest))
    else if HasSketch(mm) then
      var (n, s1) :- ReadInt(s, 4);
      if n > MAX_SKETCH then Err(SketchTooLarge) else
      var (ws, rest) :- DecodeWords(n, s1);
      Ok(((unset, ws), rest))
    else Ok(((unset, []), s))
  }

  function DecodePayload(mm: nat, kt: Ty, vt: Ty, count: nat, features: Word64, s: Bytes): Result<Parsed> {
    var (config, s1) :- DecodeConfig(s);
    var (extra, s2) :- DecodeExtra(mm, s1);
    var (items, s3) :- DecodeItems(kt, vt, count, s2);
    Ok(Parsed(features, config, extra.0, extra.1, items))
  }

  ghost predicate SnapTyped(snap: Snap, kt: Ty, vt: Ty) { AllTyped(snap.items, kt, vt) }

  /** The sizes the parser is willing to read. */
  ghost predicate SnapWithin(snap: Snap) {
    && |snap.items| <= MAX_ITEMS && AllWithin(snap.items)
    && (HasSketch(snap.mm) ==> |snap.sketch| <= MAX_SKETCH)
  }

  /** What the parser is expected to return: every field this kind of cache carries. */
  function Carried(snap: Snap): Parsed {
    Parsed(snap.features, snap.config,
           if HasListState(snap.mm) then snap.list else ListState(NO_POSITION, 0),
           if HasSketch(snap.mm) then snap.sketch else [],
           snap.items)
  }

  lemma ExtraBack(snap: Snap, rest: Bytes)
    requires HasSketch(snap.mm) ==> |snap.sketch| <= MAX_SKETCH
    ensures DecodeExtra(snap.mm, EncodeExtra(snap) + rest) == Ok(((Carried(snap).list, Carried(snap).sketch), rest))
  {
    if HasListState(snap.mm) {
      ListRoundTrip(snap.list, rest);
    } else if HasSketch(snap.mm) {
      PrefixBack(|snap.sketch|, EncodeWords(snap.sketch), rest);
      WordsBack(snap.sketch, rest);
    } else {
      assert [] + rest == rest;
    }
  }

  lemma PayloadBack(snap: Snap, kt: Ty, vt: Ty)
    requires SnapTyped(snap, kt, vt) && SnapWithin(snap)
    ensures DecodePayload(snap.mm, kt, vt, |snap.items|, snap.features, Payload(snap)) == Ok(Carried(snap))
  {
    var items := EncodeItems(snap.items);
    ConfigRoundTrip(snap.config, EncodeExtra(snap) + items);
    ExtraBack(snap, items);
    TypedItemsBack(snap.items, kt, vt, []);
    assert items + [] == items;
  }

  lemma PayloadSound(mm: nat, kt: Ty, vt: Ty, count: nat, features: Word64, s: Bytes)
    ensures DecodePayload(mm, kt, vt, count, features, s).Ok? ==>
              var p := DecodePayload(mm, kt, vt, count, features, s).value;
              && |p.items| == count && AllTyped(p.items, kt, vt) && AllWithin(p.items)
              && (HasSketch(mm) ==> |p.sketch| <= MAX_SKETCH)
  {
    if DecodeConfig(s).Ok? {
      var s1 := DecodeConfig(s).value.1;
      if HasSketch(mm) && |s1| >= 4 { WordsCounted(ValueOf(s1[..4]), s1[4..]); }
      if DecodeExtra(mm, s1).Ok? { ItemsSound(kt, vt, count, DecodeExtra(mm, s1).value.1); }
    }
  }

  // ------------------------------------------------------------------
  // The header
  // ------------------------------------------------------------------

  /** Header fields, then the payload; `size` is what the header says its own size is. */
  function FramedAs(size: nat, count: nat, mm: nat, features: nat, checksum: Bytes, payload: Bytes): Bytes {
    LittleEndian(MAGIC, 4) + (LittleEndian(VERSION, 4) + (LittleEndian(count, 4) + (LittleEndian(mm, 4) +
    (LittleEndian(size, 4) + (LittleEndian(0, 4) + (LittleEndian(features, 8) + (checksum + payload)))))))
  }

  function Framed(count: nat, mm: nat, features: nat, checksum: Bytes, payload: Bytes): Bytes {
    FramedAs(HEADER_SIZE, count, mm, features, checksum, payload)
  }

  /** serialize_from_snapshot(). */
  function Serialized(snap: Snap): Bytes {
    Framed(|snap.items|, snap.mm, snap.features, WordBytes(Crc(Payload(snap))), Payload(snap))
  }

  datatype Head = Head(count: nat, features: Word64)

  function ReadFeatures(s: Bytes): Result<(Word64, Bytes)> {
    var (n, rest) :- ReadInt(s, 8);
    ValueOfBound(s[..8]);
    Pow256Eight();
    Ok((n, rest))
  }

  lemma Pow256Eight()
    ensures Pow256(8) == U64
  {
    Pow256Four();
    assert Pow256(6) == 0x1_0000_0000_0000;
  }

  /** Everything parse_serialized_data() checks before it decodes, in its order. */
  function CheckHeader(expected: nat, data: Bytes): Result<(Head, Bytes)> {
    var (magic, s1) :- ReadInt(data, 4);
    if magic != MAGIC then Err(BadMagic) else
    var (version, s2) :- ReadInt(s1, 4);
    var (count, s3) :- ReadInt(s2, 4);
    if count > MAX_ITEMS then Err(TooManyItems) else
    var (mm, s4) :- ReadInt(s3, 4);
    if mm != expected then Err(TypeMismatch) else
    if version != VERSION then Err(UnsupportedVersion) else
    CheckRest(count, data, s4)
  }

  function CheckRest(count: nat, data: Bytes, s4: Bytes): Result<(Head, Bytes)> {
    var (size, s5) :- ReadInt(s4, 4);
    if size < HEADER_SIZE || size > |data| then Err(BadHeaderSize) else
    var (_, s6) :- ReadInt(s5, 4);
    var (features, s7) :- ReadFeatures(s6);
    var (stored, s8) :- ReadRaw(s7, 4);
    if WordBytes(Crc(data[size..])) != stored then Err(ChecksumMismatch) else
    Ok((Head(count, features), s8))
  }

  /** parse_serialized_data(): note that decoding starts after byte 36, whatever header_size says. */
  function Parse(expected: nat, kt: Ty, vt: Ty, data: Bytes): Result<Parsed> {
    var (head, s) :- CheckHeader(expected, data);
    DecodePayload(expected, kt, vt, head.count, head.features, s)
  }

  lemma IntBack(n: nat, rest: Bytes)
    requires n < U32
    ensures ReadInt(LittleEndian(n, 4) + rest, 4) == Ok((n, rest))
  {
    Pow256Four();
    ReadIntBack(n, 4, rest);
  }

  lemma FeaturesBack(n: Word64, rest: Bytes)
    ensures ReadFeatures(LittleEndian(n, 8) + rest) == Ok((n, rest))
  {
    Pow256Eight();
    ReadIntBack(n, 8, rest);
  }

  lemma Skip(a: Bytes, b: Bytes, n: nat)
    requires |a| <= n <= |a| + |b|
    ensures (a + b)[n..] == b[n - |a|..]
  {
  }

  lemma FramedPayload(size: nat, count: nat, mm: nat, features: nat, checksum: Bytes, payload: Bytes)
    requires |checksum| == 4
    ensures var data := FramedAs(size, count, mm, features, checksum, payload);
            |data| == HEADER_SIZE + |payload| && data[HEADER_SIZE..] == payload
  {
    var s7 := LittleEndian(features, 8) + (checksum + payload);
    var s4 := LittleEndian(mm, 4) + (LittleEndian(size, 4) + (LittleEndian(0, 4) + s7));
    Skip(LittleEndian(MAGIC, 4), LittleEndian(VERSION, 4) + (LittleEndian(count, 4) + s4), 36);
    Skip(LittleEndian(VERSION, 4), LittleEndian(count, 4) + s4, 32);
    Skip(LittleEndian(count, 4), s4, 28);
    Skip(LittleEndian(mm, 4), LittleEndian(size, 4) + (LittleEndian(0, 4) + s7), 24);
    Skip(LittleEndian(size, 4), LittleEndian(0, 4) + s7, 20);
    Skip(LittleEndian(0, 4), s7, 16);
    Skip(LittleEndian(features, 8), checksum + payload, 12);
    assert (checksum + payload)[4..] == payload;
  }

  lemma RestBack(size: nat, count: nat, features: Word64, checksum: Bytes, payload: Bytes, data: Bytes)
    requires |checksum| == 4 && HEADER_SIZE <= size <= |data| && size < U32
    ensures CheckRest(count, data, LittleEndian(size, 4) + (LittleEndian(0, 4) +
                                     (LittleEndian(features, 8) + (checksum + payload))))
         == if WordBytes(Crc(data[size..])) != checksum then Err(ChecksumMismatch)
            else Ok((Head(count, features), payload))
  {
    IntBack(size, LittleEndian(0, 4) + (LittleEndian(features, 8) + (checksum + payload)));
    IntBack(0, LittleEndian(features, 8) + (checksum + payload));
    FeaturesBack(features, checksum + payload);
    ReadRawBack(checksum, payload);
  }

  /** A frame passes the header check exactly when its checksum matches what follows the size it claims. */
  lemma FrameBack(size: nat, count: nat, mm: Word32, features: Word64, checksum: Bytes, payload: Bytes, data: Bytes)
    requires count <= MAX_ITEMS && |checksum| == 4 && HEADER_SIZE <= size <= |data| && size < U32
    requires data == FramedAs(size, count, mm, features, checksum, payload)
    ensures CheckHeader(mm, data)
         == if WordBytes(Crc(data[size..])) != checksum then Err(ChecksumMismatch)
            else Ok((Head(count, features), payload))
  {
    var s4 := LittleEndian(size, 4) + (LittleEndian(0, 4) + (LittleEndian(features, 8) + (checksum + payload)));
    IntBack(MAGIC, LittleEndian(VERSION, 4) + (LittleEndian(count, 4) + (LittleEndian(mm, 4) + s4)));
    IntBack(VERSION, LittleEndian(count, 4) + (LittleEndian(mm, 4) + s4));
    IntBack(count, LittleEndian(mm, 4) + s4);
    IntBack(mm, s4);
    RestBack(size, count, features, checksum, payload, data);
  }

  /** A well-formed frame passes the header check exactly when its checksum matches its payload. */
  lemma HeaderBack(count: nat, mm: Word32, features: Word64, checksum: Bytes, payload: Bytes)
    requires count <= MAX_ITEMS && |checksum| == 4
    ensures CheckHeader(mm, Framed(count, mm, features, checksum, payload))
         == if WordBytes(Crc(payload)) != checksum then Err(ChecksumMismatch) else Ok((Head(count, features), payload))
  {
    FramedPayload(HEADER_SIZE, count, mm, features, checksum, payload);
    FrameBack(HEADER_SIZE, count, mm, features, checksum, payload, Framed(count, mm, features, checksum, payload));
  }

  lemma HeaderCounts(expected: nat, data: Bytes)
    ensures CheckHeader(expected, data).Ok? ==> CheckHeader(expected, data).value.0.count <= MAX_ITEMS
  {
  }

  /** Parsing what was serialized returns every field the cache carries, exactly within the stated limits. */
  lemma SnapshotRoundTrip(snap: Snap, kt: Ty, vt: Ty)
    requires SnapTyped(snap, kt, vt)
    ensures Parse(snap.mm, kt, vt, Serialized(snap)) == Ok(Carried(snap)) <==> SnapWithin(snap)
  {
    if SnapWithin(snap) {
      HeaderBack(|snap.items|, snap.mm, snap.features, WordBytes(Crc(Payload(snap))), Payload(snap));
      PayloadBack(snap, kt, vt);
    }
    ParseSound(snap.mm, kt, vt, Serialized(snap));
  }

  lemma ParseSound(expected: nat, kt: Ty, vt: Ty, data: Bytes)
    ensures Parse(expected, kt, vt, data).Ok? ==>
              var p := Parse(expected, kt, vt, data).value;
              && |p.items| <= MAX_ITEMS && AllTyped(p.items, kt, vt) && AllWithin(p.items)
              && (HasSketch(expected) ==> |p.sketch| <= MAX_SKETCH)
  {
    HeaderCounts(expected, data);
    if CheckHeader(expected, data).Ok? {
      var (head, s) := CheckHeader(expected, data).value;
      PayloadSound(expected, kt, vt, head.count, head.features, s);
    }
  }

  lemma Splice(count: nat, mm: nat, features: nat, checksum: Bytes, payload: Bytes, altered: Bytes)
    requires |checksum| == 4
    ensures Framed(count, mm, features, checksum, payload)[..HEADER_SIZE] + altered
         == Framed(count, mm, features, checksum, altered)
  {
    FramedPayload(HEADER_SIZE, count, mm, features, checksum, payload);
    FramedPayload(HEADER_SIZE, count, mm, features, checksum, altered);
  }

  /**
   A serialized snapshot whose payload was altered, but only inside a window of 32
   consecutive bits, is rejected by its checksum before anything is decoded.
   */
  lemma AlteredPayloadRejected(snap: Snap, kt: Ty, vt: Ty, altered: Bytes, at: nat)
    requires |snap.items| <= MAX_ITEMS && BurstError(Payload(snap), altered, at)
    ensures var blob := Serialized(snap)[..HEADER_SIZE] + altered;
            Parse(snap.mm, kt, vt, blob) == Err(ChecksumMismatch)
  {
    var checksum := WordBytes(Crc(Payload(snap)));
    Splice(|snap.items|, snap.mm, snap.features, checksum, Payload(snap), altered);
    BurstDetected(Payload(snap), altered, at);
    if WordBytes(Crc(altered)) == checksum { WordBytesInjective(Crc(altered), Crc(Payload(snap))); }
    HeaderBack(|snap.items|, snap.mm, snap.features, checksum, altered);
  }

  // ------------------------------------------------------------------
  // Header inspection
  // ------------------------------------------------------------------

  datatype Info = Info(
    magicOk: bool, versionSupported: bool, checksumOk: bool, mm: nat, count: nat, payloadOffset: nat)

  function FieldAt(data: Bytes, at: nat, w: nat): nat
    requires at + w <= |data|
  {
    ValueOf(data[at..at + w])
  }

  /** inspect_serialization_header(). */
  function Inspect(data: Bytes): Info {
    if |data| < 8 then Info(false, false, false, 0, 0, 0) else
    var magicOk, versionOk := FieldAt(data, 0, 4) == MAGIC, FieldAt(data, 4, 4) == VERSION;
    if !magicOk || !versionOk || |data| < HEADER_SIZE then Info(magicOk, versionOk, false, 0, 0, 0) else
    var count := FieldAt(data, 8, 4);
    if count > MAX_ITEMS then Info(true, false, false, 0, count, 0) else
    var mm, size := FieldAt(data, 12, 4), FieldAt(data, 16, 4);
    if size < HEADER_SIZE || size > |data| then Info(true, false, false, mm, count, 0) else
    Info(true, true, WordBytes(Crc(data[size..])) == data[32..36], mm, count, size)
  }

  lemma ReadAt(data: Bytes, at: nat)
    requires at <= |data|
    ensures ReadInt(data[at..], 4)
         == if at + 4 <= |data| then Ok((FieldAt(data, at, 4), data[at + 4..])) else Err(UnexpectedEnd)
  {
    if at + 4 <= |data| {
      assert data[at..][..4] == data[at..at + 4];
      assert data[at..][4..] == data[at + 4..];
    }
  }

  lemma RestReads(count: nat, data: Bytes)
    requires |data| >= HEADER_SIZE
    ensures CheckRest(count, data, data[16..]).Ok? <==>
              var size := FieldAt(data, 16, 4);
              HEADER_SIZE <= size <= |data| && WordBytes(Crc(data[size..])) == data[32..36]
  {
    ReadAt(data, 16);
    ReadAt(data, 20);
    assert data[24..][8..] == data[32..] && data[32..][..4] == data[32..36];
  }

  lemma ShortFails(count: nat, data: Bytes)
    requires 16 <= |data| < HEADER_SIZE
    ensures CheckRest(count, data, data[16..]).Err?
  {
    if |data| >= 20 { ReadAt(data, 16); }
  }

  /** The parser's header check accepts exactly what inspection reports as good for that kind of cache. */
  lemma HeaderCheckIsInspection(expected: nat, data: Bytes)
    ensures CheckHeader(expected, data).Ok? <==>
              var i := Inspect(data);
              i.magicOk && i.versionSupported && i.checksumOk && i.mm == expected
  {
    assert data[0..] == data;
    ReadAt(data, 0);
    if |data| >= 4 { ReadAt(data, 4); }
    if |data| >= 8 { ReadAt(data, 8); }
    if |data| >= 12 { ReadAt(data, 12); }
    if |data| >= HEADER_SIZE {
      RestReads(FieldAt(data, 8, 4), data);
    } else if |data| >= 16 {
      ShortFails(FieldAt(data, 8, 4), data);
    }
  }

  /** Any blob the parser accepts gets a clean bill from inspection. */
  lemma AcceptedPassesInspection(expected: nat, kt: Ty, vt: Ty, data: Bytes)
    requires Parse(expected, kt, vt, data).Ok?
    ensures Inspect(data).magicOk && Inspect(data).versionSupported && Inspect(data).checksumOk
    ensures Inspect(data).mm == expected
  {
    HeaderCheckIsInspection(expected, data);
  }

  // ------------------------------------------------------------------
  // Which damage the checksum covers
  // ------------------------------------------------------------------

  datatype Fields = Fields(
    magic: nat, version: nat, count: nat, mm: nat, size: nat, features: Result<(Word64, Bytes)>, stored: Bytes)

  /** Header fields at their offsets. */
  function FieldsOf(data: Bytes): Fields
    requires |data| >= HEADER_SIZE
  {
    Fields(FieldAt(data, 0, 4), FieldAt(data, 4, 4), FieldAt(data, 8, 4), FieldAt(data, 12, 4), FieldAt(data, 16, 4),
           ReadFeatures(data[24..32]), data[32..36])
  }

  /** What the header check makes of the fields. */
  function Judged(expected: nat, f: Fields, data: Bytes): Result<(Head, Bytes)>
    requires |data| >= HEADER_SIZE
  {
    if f.magic != MAGIC then Err(BadMagic)
    else if f.count > MAX_ITEMS then Err(TooManyItems)
    else if f.mm != expected then Err(TypeMismatch)
    else if f.version != VERSION then Err(UnsupportedVersion)
    else if f.size < HEADER_SIZE || f.size > |data| then Err(BadHeaderSize)
    else if WordBytes(Crc(data[f.size..])) != f.stored then Err(ChecksumMismatch)
    else
      var (features, _) :- f.features;
      Ok((Head(f.count, features), data[HEADER_SIZE..]))
  }

  lemma RestJudged(count: nat, data: Bytes)
    requires |data| >= HEADER_SIZE
    ensures CheckRest(count, data, data[16..]) ==
              var size := FieldAt(data, 16, 4);
              if size < HEADER_SIZE || size > |data| then Err(BadHeaderSize)
              else if WordBytes(Crc(data[size..])) != data[32..36] then Err(ChecksumMismatch)
              else Ok((Head(count, ReadFeatures(data[24..32]).value.0), data[HEADER_SIZE..]))
  {
    ReadAt(data, 16);
    ReadAt(data, 20);
    assert data[24..][8..] == data[32..] && data[32..][..4] == data[32..36] && data[32..][4..] == data[36..];
    assert data[24..][..8] == data[24..32] == data[24..32][..8];
  }

  lemma HeaderJudged(expected: nat, data: Bytes)
    requires |data| >= HEADER_SIZE
    ensures CheckHeader(expected, data) == Judged(expected, FieldsOf(data), data)
  {
    assert data[0..] == data;
    ReadAt(data, 0);
    ReadAt(data, 4);
    ReadAt(data, 8);
    ReadAt(data, 12);
    RestJudged(FieldAt(data, 8, 4), data);
  }

  lemma SameField(data: Bytes, blob: Bytes, at: nat, w: nat)
    requires |data| >= HEADER_SIZE && |blob| >= HEADER_SIZE && data[..HEADER_SIZE] == blob[..HEADER_SIZE]
    requires at + w <= HEADER_SIZE
    ensures blob[at..at + w] == data[at..at + w]
  {
    assert data[..HEADER_SIZE][at..at + w] == data[at..at + w];
    assert blob[..HEADER_SIZE][at..at + w] == blob[at..at + w];
  }

  lemma SameFields(data: Bytes, blob: Bytes)
    requires |data| >= HEADER_SIZE && |blob| >= HEADER_SIZE && data[..HEADER_SIZE] == blob[..HEADER_SIZE]
    ensures FieldsOf(data) == FieldsOf(blob)
  {
    SameField(data, blob, 0, 4);
    SameField(data, blob, 4, 4);
    SameField(data, blob, 8, 4);
    SameField(data, blob, 12, 4);
    SameField(data, blob, 16, 4);
    SameField(data, blob, 24, 8);
    SameField(data, blob, 32, 4);
  }

  lemma SameJudged(expected: nat, f: Fields, data: Bytes, blob: Bytes)
    requires |data| == |blob| >= HEADER_SIZE && Judged(expected, f, data).Ok?
    ensures HEADER_SIZE <= f.size <= |data|
    ensures Judged(expected, f, blob)
         == if WordBytes(Crc(blob[f.size..])) != WordBytes(Crc(data[f.size..])) then Err(ChecksumMismatch)
            else Ok((Judged(expected, f, data).value.0, blob[HEADER_SIZE..]))
  {
  }

  /** Behind an accepted header any other bytes meet the same header, and only the checksum can refuse them. */
  lemma SameHeader(expected: nat, data: Bytes, altered: Bytes, blob: Bytes)
    requires CheckHeader(expected, data).Ok? && |data| == |blob| >= HEADER_SIZE
    requires blob == data[..HEADER_SIZE] + altered
    ensures var size := FieldAt(data, 16, 4);
            && HEADER_SIZE <= size <= |data|
            && CheckHeader(expected, blob)
            == if WordBytes(Crc(blob[size..])) != WordBytes(Crc(data[size..])) then Err(ChecksumMismatch)
               else Ok((CheckHeader(expected, data).value.0, altered))
  {
    assert data[..HEADER_SIZE] == blob[..HEADER_SIZE] && blob[HEADER_SIZE..] == altered;
    HeaderJudged(expected, data);
    HeaderJudged(expected, blob);
    SameFields(data, blob);
    SameJudged(expected, FieldsOf(data), data, blob);
  }

  /** An accepted blob is decoded from byte 36 on, and is longer than that. */
  lemma DecodedFrom(expected: nat, kt: Ty, vt: Ty, data: Bytes)
    requires Parse(expected, kt, vt, data).Ok?
    ensures |data| > HEADER_SIZE && HEADER_SIZE <= FieldAt(data, 16, 4) <= |data|
    ensures CheckHeader(expected, data).value.1 == data[HEADER_SIZE..]
  {
    HeaderCheckIsInspection(expected, data);
    HeaderJudged(expected, data);
    assert |data[HEADER_SIZE..]| >= CONFIG_WIDTHS[0];
  }

  lemma FirstByteRead(s: Bytes, b: Byte)
    requires DecodeConfig(s).Ok? && s != [] && b != s[0]
    ensures var was, now := DecodeConfig(s), DecodeConfig(s[0 := b]);
            now.Ok? && now.value.1 == was.value.1 && now.value.0.refreshTime != was.value.0.refreshTime
  {
    var s' := s[0 := b];
    assert s'[4..] == s[4..] && s'[..4][1..] == s[..4][1..];
    FieldsShaped(CONFIG_WIDTHS, s);
    FieldsShaped(CONFIG_WIDTHS, s');
  }

  /** Replacing the first decoded byte always decodes, and to something else. */
  lemma FirstByteMatters(mm: nat, kt: Ty, vt: Ty, head: Head, s: Bytes, b: Byte)
    requires DecodePayload(mm, kt, vt, head.count, head.features, s).Ok? && s != [] && b != s[0]
    ensures var now := DecodePayload(mm, kt, vt, head.count, head.features, s[0 := b]);
            now.Ok? && now != DecodePayload(mm, kt, vt, head.count, head.features, s)
  {
    FirstByteRead(s, b);
  }

  /** No damage within 32 consecutive bits after the fixed header fields is accepted. */
  ghost predicate RefusesBursts(expected: nat, kt: Ty, vt: Ty, data: Bytes)
    requires |data| >= HEADER_SIZE
  {
    forall altered, at :: BurstError(data[HEADER_SIZE..], altered, at) ==>
      Parse(expected, kt, vt, data[..HEADER_SIZE] + altered).Err?
  }

  lemma CoveredIsRefused(expected: nat, kt: Ty, vt: Ty, data: Bytes, altered: Bytes, at: nat)
    requires CheckHeader(expected, data).Ok? && |data| >= HEADER_SIZE && FieldAt(data, 16, 4) == HEADER_SIZE
    requires BurstError(data[HEADER_SIZE..], altered, at)
    ensures Parse(expected, kt, vt, data[..HEADER_SIZE] + altered) == Err(ChecksumMismatch)
  {
    var payload, blob := data[HEADER_SIZE..], data[..HEADER_SIZE] + altered;
    assert blob[HEADER_SIZE..] == altered;
    SameHeader(expected, data, altered, blob);
    BurstDetected(payload, altered, at);
    if WordBytes(Crc(altered)) == WordBytes(Crc(payload)) { WordBytesInjective(Crc(altered), Crc(payload)); }
  }

  /** Under a larger header_size the first decoded byte may be anything, and the result changes unnoticed. */
  lemma UncoveredIsAccepted(expected: nat, kt: Ty, vt: Ty, data: Bytes, b: Byte, altered: Bytes)
    requires Parse(expected, kt, vt, data).Ok? && |data| > HEADER_SIZE && b != data[HEADER_SIZE]
    requires FieldAt(data, 16, 4) > HEADER_SIZE && altered == data[HEADER_SIZE..][0 := b]
    ensures var now := Parse(expected, kt, vt, data[..HEADER_SIZE] + altered);
            now.Ok? && now != Parse(expected, kt, vt, data)
  {
    DecodedFrom(expected, kt, vt, data);
    var size, blob := FieldAt(data, 16, 4), data[..HEADER_SIZE] + altered;
    assert blob[size..] == data[size..];
    SameHeader(expected, data, altered, blob);
    FirstByteMatters(expected, kt, vt, CheckHeader(expected, data).value.0, data[HEADER_SIZE..], b);
  }

  lemma UncoveredBurst(expected: nat, kt: Ty, vt: Ty, data: Bytes)
    requires Parse(expected, kt, vt, data).Ok? && |data| > HEADER_SIZE && FieldAt(data, 16, 4) > HEADER_SIZE
    ensures !RefusesBursts(expected, kt, vt, data)
  {
    var s := data[HEADER_SIZE..];
    var b: Byte := if s[0] == 0 then 1 else 0;
    var altered := s[0 := b];
    UncoveredIsAccepted(expected, kt, vt, data, b, altered);
    FourBytesAreABurst(s, altered, 0);
  }

  /** The checksum protects everything that is decoded from an accepted blob exactly when header_size is 36. */
  lemma CoveredExactly(expected: nat, kt: Ty, vt: Ty, data: Bytes)
    requires Parse(expected, kt, vt, data).Ok?
    ensures |data| > HEADER_SIZE && (RefusesBursts(expected, kt, vt, data) <==> FieldAt(data, 16, 4) == HEADER_SIZE)
  {
    DecodedFrom(expected, kt, vt, data);
    if FieldAt(data, 16, 4) == HEADER_SIZE {
      forall altered, at | BurstError(data[HEADER_SIZE..], altered, at)
        ensures Parse(expected, kt, vt, data[..HEADER_SIZE] + altered).Err?
      {
        CoveredIsRefused(expected, kt, vt, data, altered, at);
      }
    } else {
      UncoveredBurst(expected, kt, vt, data);
    }
  }

  lemma SizeClaimed(size: nat, count: nat, mm: nat, features: nat, checksum: Bytes, payload: Bytes, data: Bytes)
    requires |checksum| == 4 && size < U32 && data == FramedAs(size, count, mm, features, checksum, payload)
    ensures |data| >= HEADER_SIZE && FieldAt(data, 16, 4) == size
  {
    FramedPayload(size, count, mm, features, checksum, payload);
    var rest := LittleEndian(0, 4) + (LittleEndian(features, 8) + (checksum + payload));
    var s4 := LittleEndian(size, 4) + rest;
    Skip(LittleEndian(MAGIC, 4), LittleEndian(VERSION, 4) + (LittleEndian(count, 4) + (LittleEndian(mm, 4) + s4)), 16);
    Skip(LittleEndian(VERSION, 4), LittleEndian(count, 4) + (LittleEndian(mm, 4) + s4), 12);
    Skip(LittleEndian(count, 4), LittleEndian(mm, 4) + s4, 8);
    Skip(LittleEndian(mm, 4), s4, 4);
    ClaimedAt(data, size, rest);
  }

  lemma ClaimedAt(data: Bytes, size: nat, rest: Bytes)
    requires |data| >= HEADER_SIZE && size < U32 && data[16..] == LittleEndian(size, 4) + rest
    ensures FieldAt(data, 16, 4) == size
  {
    assert data[16..20] == data[16..][..4] == LittleEndian(size, 4);
    NumberBack(size);
  }

  lemma BehindClaimed(size: nat, data: Bytes, payload: Bytes)
    requires HEADER_SIZE <= size <= |data| && data[HEADER_SIZE..] == payload
    ensures data[size..] == payload[size - HEADER_SIZE..]
  {
  }

  /** A blob that claims any header_size up to its end, with the checksum of what follows, is accepted. */
  lemma AnyHeaderSize(snap: Snap, kt: Ty, vt: Ty, size: nat, payload: Bytes, checksum: Bytes, data: Bytes)
    requires SnapTyped(snap, kt, vt) && SnapWithin(snap) && payload == Payload(snap)
    requires HEADER_SIZE <= size <= HEADER_SIZE + |payload| && size < U32
    requires checksum == WordBytes(Crc(payload[size - HEADER_SIZE..]))
    requires data == FramedAs(size, |snap.items|, snap.mm, snap.features, checksum, payload)
    ensures |data| >= HEADER_SIZE && FieldAt(data, 16, 4) == size
    ensures Parse(snap.mm, kt, vt, data) == Ok(Carried(snap))
  {
    SizeClaimed(size, |snap.items|, snap.mm, snap.features, checksum, payload, data);
    FramedPayload(size, |snap.items|, snap.mm, snap.features, checksum, payload);
    BehindClaimed(size, data, payload);
    FrameBack(size, |snap.items|, snap.mm, snap.features, checksum, payload, data);
    PayloadBack(snap, kt, vt);
  }

  /** The features are under no checksum of their own: another low byte is accepted as another set of features. */
  lemma FeaturesUncovered(expected: nat, kt: Ty, vt: Ty, data: Bytes, b: Byte, blob: Bytes)
    requires Parse(expected, kt, vt, data).Ok? && |data| > HEADER_SIZE && b != data[24] && blob == data[24 := b]
    ensures var was, now := Parse(expected, kt, vt, data), Parse(expected, kt, vt, blob);
            now.Ok? && now.value.features != was.value.features
  {
    var (was, s) := CheckHeader(expected, data).value;
    OtherHeader(expected, data, b, blob);
    var now := CheckHeader(expected, blob).value.0;
    DecodedBehind(expected, kt, vt, data, was, s);
    DecodedBehind(expected, kt, vt, blob, now, s);
    SameDecoded(expected, kt, vt, was, now, s);
    SameFeatures(expected, kt, vt, was, s);
  }

  lemma DecodedBehind(expected: nat, kt: Ty, vt: Ty, data: Bytes, head: Head, s: Bytes)
    requires CheckHeader(expected, data) == Ok((head, s))
    ensures Parse(expected, kt, vt, data) == DecodePayload(expected, kt, vt, head.count, head.features, s)
  {
  }

  lemma SameFeatures(mm: nat, kt: Ty, vt: Ty, head: Head, s: Bytes)
    requires DecodePayload(mm, kt, vt, head.count, head.features, s).Ok?
    ensures DecodePayload(mm, kt, vt, head.count, head.features, s).value.features == head.features
  {
  }

  lemma OtherHeader(expected: nat, data: Bytes, b: Byte, blob: Bytes)
    requires CheckHeader(expected, data).Ok? && |data| > HEADER_SIZE && b != data[24] && blob == data[24 := b]
    ensures var was, now := CheckHeader(expected, data), CheckHeader(expected, blob);
            && now.Ok? && now.value.1 == was.value.1 && now.value.0.count == was.value.0.count
            && now.value.0.features != was.value.0.features
  {
    HeaderJudged(expected, data);
    HeaderJudged(expected, blob);
    OtherFeatures(data, b, blob);
    assert blob[HEADER_SIZE..] == data[HEADER_SIZE..];
    OtherFeaturesJudged(expected, data, blob);
  }

  lemma OtherFeatures(data: Bytes, b: Byte, blob: Bytes)
    requires |data| >= HEADER_SIZE && b != data[24] && blob == data[24 := b]
    ensures var f, g := FieldsOf(data), FieldsOf(blob);
            && f.features.Ok? && g.features.Ok? && g.features.value.0 != f.features.value.0
            && g == f.(features := g.features)
  {
    assert blob[0..4] == data[0..4] && blob[4..8] == data[4..8] && blob[8..12] == data[8..12];
    assert blob[12..16] == data[12..16] && blob[16..20] == data[16..20] && blob[32..36] == data[32..36];
    OtherWord(data[24..32], b, blob[24..32]);
  }

  lemma OtherWord(s: Bytes, b: Byte, r: Bytes)
    requires |s| == 8 && b != s[0] && r == s[0 := b]
    ensures ReadFeatures(s).Ok? && ReadFeatures(r).Ok? && ReadFeatures(r).value.0 != ReadFeatures(s).value.0
  {
    assert s[..8] == s && r[..8] == r && r[1..] == s[1..];
  }

  lemma OtherFeaturesJudged(expected: nat, data: Bytes, blob: Bytes)
    requires |data| == |blob| >= HEADER_SIZE && data[HEADER_SIZE..] == blob[HEADER_SIZE..]
    requires var f, g := FieldsOf(data), FieldsOf(blob); g.features.Ok? && g == f.(features := g.features)
    requires Judged(expected, FieldsOf(data), data).Ok?
    ensures Judged(expected, FieldsOf(blob), blob)
         == Ok((Head(FieldsOf(data).count, FieldsOf(blob).features.value.0), data[HEADER_SIZE..]))
  {
    var size := FieldsOf(data).size;
    assert blob[size..] == blob[HEADER_SIZE..][size - HEADER_SIZE..];
    assert data[size..] == data[HEADER_SIZE..][size - HEADER_SIZE..];
  }

  lemma SameDecoded(mm: nat, kt: Ty, vt: Ty, was: Head, now: Head, s: Bytes)
    requires now.count == was.count && DecodePayload(mm, kt, vt, was.count, was.features, s).Ok?
    ensures DecodePayload(mm, kt, vt, now.count, now.features, s)
         == Ok(DecodePayload(mm, kt, vt, was.count, was.features, s).value.(features := now.features))
  {
  }
}
