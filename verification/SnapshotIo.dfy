/**
 Writing and parsing a snapshot with the writer and reader objects: the byte
 buffer is built by appending and then patched with the checksum, and the parser
 advances a cursor. Both are proved equal to the functions of module Snapshot.
 */
module SnapshotIo {
  import opened Basics
  import opened Crc32
  import opened Serde
  import opened Snapshot

  // ------------------------------------------------------------------
  // Writing
  // ------------------------------------------------------------------

  method WriteRecord(w: BinaryWriter, fs: seq<Bytes>)
    modifies w
    ensures w.buffer == old(w.buffer) + EncodeFields(fs)
    decreases |fs|
  {
    if fs != [] {
      w.WriteBytes(fs[0]);
      WriteRecord(w, fs[1..]);
      Assoc(old(w.buffer), fs[0], EncodeFields(fs[1..]));
    }
  }

  method WriteWords(w: BinaryWriter, ws: seq<Word32>)
    modifies w
    ensures w.buffer == old(w.buffer) + EncodeWords(ws)
  {
    for i := 0 to |ws|
      invariant w.buffer == old(w.buffer) + EncodeWords(ws[..i])
    {
      w.WriteInt(ws[i], 4);
      assert ws[..i + 1][..i] == ws[..i];
      Assoc(old(w.buffer), EncodeWords(ws[..i]), LittleEndian(ws[i], 4));
    }
    assert ws[..|ws|] == ws;
  }

  method WriteItem(w: BinaryWriter, i: Item)
    modifies w
    ensures w.buffer == old(w.buffer) + EncodeItem(i)
  {
    var trailer := [LittleEndian(i.updateTime, 4), [i.flags], [i.queue]];
    SerdeWrite(w, i.key);
    SerdeWrite(w, i.value);
    WriteRecord(w, trailer);
    Assoc(old(w.buffer) + Encode(i.key), Encode(i.value), EncodeFields(trailer));
    Assoc(old(w.buffer), Encode(i.key), Encode(i.value) + EncodeFields(trailer));
  }

  lemma EncodeItemsOneMore(items: seq<Item>, i: nat)
    requires i < |items|
    ensures EncodeItems(items[..i + 1]) == EncodeItems(items[..i]) + EncodeItem(items[i])
  {
    assert items[..i + 1][..i] == items[..i];
  }

  method WriteItems(w: BinaryWriter, items: seq<Item>)
    modifies w
    ensures w.buffer == old(w.buffer) + EncodeItems(items)
  {
    for i := 0 to |items|
      invariant w.buffer == old(w.buffer) + EncodeItems(items[..i])
    {
      WriteItem(w, items[i]);
      EncodeItemsOneMore(items, i);
      Assoc(old(w.buffer), EncodeItems(items[..i]), EncodeItem(items[i]));
    }
    assert items[..|items|] == items;
  }

  /** The list state, the sketch, or nothing, by kind of cache. */
  method WriteExtra(w: BinaryWriter, snap: Snap)
    modifies w
    ensures w.buffer == old(w.buffer) + EncodeExtra(snap)
  {
    if HasListState(snap.mm) {
      WriteRecord(w, [LittleEndian(snap.list.insertionPoint, 4), LittleEndian(snap.list.tailSize, 4),
                      LittleEndian(0, 4), LittleEndian(0, 4), LittleEndian(0, 4)]);
    } else if HasSketch(snap.mm) {
      w.WriteInt(|snap.sketch|, 4);
      WriteWords(w, snap.sketch);
      Assoc(old(w.buffer), LittleEndian(|snap.sketch|, 4), EncodeWords(snap.sketch));
    }
  }

  /** Eight appends in a row. */
  lemma Regrouped(a: Bytes, b: Bytes, c: Bytes, d: Bytes, e: Bytes, f: Bytes, g: Bytes, h: Bytes)
    ensures [] + a + b + c + d + e + f + g + h == a + (b + (c + (d + (e + (f + (g + (h + [])))))))
  {
  }

  /** The 36 header bytes, with zeros where the checksum will go. */
  method WriteHeader(w: BinaryWriter, count: nat, mm: nat, features: nat) returns (checksumOffset: nat)
    requires w.buffer == []
    modifies w
    ensures w.buffer == Framed(count, mm, features, LittleEndian(0, 4), []) && checksumOffset == HEADER_SIZE - 4
  {
    var magic, version, size := MAGIC, VERSION, HEADER_SIZE;
    w.WriteInt(magic, 4);
    w.WriteInt(version, 4);
    w.WriteInt(count, 4);
    w.WriteInt(mm, 4);
    w.WriteInt(size, 4);
    w.WriteInt(0, 4);
    w.WriteInt(features, 8);
    checksumOffset := |w.buffer|;
    w.WriteInt(0, 4);
    Regrouped(LittleEndian(magic, 4), LittleEndian(version, 4), LittleEndian(count, 4), LittleEndian(mm, 4),
              LittleEndian(size, 4), LittleEndian(0, 4), LittleEndian(features, 8), LittleEndian(0, 4));
  }

  lemma Appended(count: nat, mm: nat, features: nat, checksum: Bytes, payload: Bytes)
    requires |checksum| == 4
    ensures Framed(count, mm, features, checksum, []) + payload == Framed(count, mm, features, checksum, payload)
  {
    Splice(count, mm, features, checksum, [], payload);
    FramedPayload(HEADER_SIZE, count, mm, features, checksum, []);
    assert Framed(count, mm, features, checksum, [])[..HEADER_SIZE] == Framed(count, mm, features, checksum, []);
  }

  lemma Patched(count: nat, mm: nat, features: nat, was: Bytes, checksum: Bytes, payload: Bytes)
    requires |was| == |checksum| == 4
    ensures var data := Framed(count, mm, features, was, payload);
            |data| == HEADER_SIZE + |payload| &&
            data[..HEADER_SIZE - 4] + checksum + data[HEADER_SIZE..] == Framed(count, mm, features, checksum, payload)
  {
  }

  /** Fills in the checksum of everything after the header. */
  method Seal(w: BinaryWriter, checksumOffset: nat, ghost count: nat, ghost mm: nat,
              ghost features: nat, ghost payload: Bytes)
    requires checksumOffset == HEADER_SIZE - 4
    requires w.buffer == Framed(count, mm, features, LittleEndian(0, 4), payload)
    modifies w
    ensures w.buffer == Framed(count, mm, features, WordBytes(Crc(payload)), payload)
  {
    FramedPayload(HEADER_SIZE, count, mm, features, LittleEndian(0, 4), payload);
    var checksum := ComputeCrc(w.buffer[checksumOffset + 4..]);
    var ok := w.PatchAt(checksumOffset, WordBytes(checksum));
    Patched(count, mm, features, LittleEndian(0, 4), WordBytes(checksum), payload);
  }

  /** serialize_from_snapshot(). */
  method SerializeSnapshot(snap: Snap) returns (blob: Bytes)
    ensures blob == Serialized(snap)
  {
    var w := new BinaryWriter();
    var at := WriteHeader(w, |snap.items|, snap.mm, snap.features);
    ghost var head := w.buffer;
    WriteRecord(w, ConfigFields(snap.config));
    WriteExtra(w, snap);
    WriteItems(w, snap.items);
    Assoc(head + EncodeConfig(snap.config), EncodeExtra(snap), EncodeItems(snap.items));
    Assoc(head, EncodeConfig(snap.config), EncodeExtra(snap) + EncodeItems(snap.items));
    Appended(|snap.items|, snap.mm, snap.features, LittleEndian(0, 4), Payload(snap));
    Seal(w, at, |snap.items|, snap.mm, snap.features, Payload(snap));
    blob := w.buffer;
  }

  // ------------------------------------------------------------------
  // Reading
  // ------------------------------------------------------------------

  method ReadRecord(r: BinaryReader, widths: seq<nat>) returns (res: Result<seq<Bytes>>)
    requires r.Valid()
    modifies r
    ensures r.Valid() && Delivers(ReadFields(widths, old(r.Remaining())), res, r.Remaining())
    ensures res.Ok? ==> Shaped(res.value, widths)
    decreases |widths|
  {
    if widths == [] { return Ok([]); }
    var f := r.ReadBytes(widths[0]);
    if f.Err? { return Err(f.error); }
    var fs := ReadRecord(r, widths[1..]);
    if fs.Err? { return fs; }
    FieldsShaped(widths, old(r.Remaining()));
    return Ok([f.value] + fs.value);
  }

  method ReadConfig(r: BinaryReader) returns (res: Result<Config>)
    requires r.Valid()
    modifies r
    ensures r.Valid() && Delivers(DecodeConfig(old(r.Remaining())), res, r.Remaining())
  {
    var fs := ReadRecord(r, CONFIG_WIDTHS);
    if fs.Err? { return Err(fs.error); }
    return Ok(ConfigOf(fs.value));
  }

  method ReadList(r: BinaryReader) returns (res: Result<ListState>)
    requires r.Valid()
    modifies r
    ensures r.Valid() && Delivers(DecodeList(old(r.Remaining())), res, r.Remaining())
  {
    var fs := ReadRecord(r, LIST_WIDTHS);
    if fs.Err? { return Err(fs.error); }
    return Ok(ListState(Number(fs.value[0]), Number(fs.value[1])));
  }

  method ReadItem(r: BinaryReader, kt: Ty, vt: Ty) returns (res: Result<Item>)
    requires r.Valid()
    modifies r
    ensures r.Valid() && Delivers(DecodeItem(kt, vt, old(r.Remaining())), res, r.Remaining())
  {
    var k := SerdeRead(r, kt);
    if k.Err? { return Err(k.error); }
    var v := SerdeRead(r, vt);
    if v.Err? { return Err(v.error); }
    var fs := ReadRecord(r, [4, 1, 1]);
    if fs.Err? { return Err(fs.error); }
    return Ok(Item(k.value, v.value, Number(fs.value[0]), fs.value[1][0], fs.value[2][0]));
  }

  lemma {:induction false} DecodeWordsFails(i: nat, n: nat, s: Bytes)
    requires i < n && DecodeWords(i + 1, s).Err?
    ensures DecodeWords(n, s) == Err(DecodeWords(i + 1, s).error)
    decreases n
  {
    if i + 1 < n { DecodeWordsFails(i, n - 1, s); }
  }

  method ReadWords(r: BinaryReader, n: nat) returns (res: Result<seq<Word32>>)
    requires r.Valid()
    modifies r
    ensures r.Valid() && Delivers(DecodeWords(n, old(r.Remaining())), res, r.Remaining())
  {
    ghost var s := r.Remaining();
    var ws := [];
    for i := 0 to n
      invariant r.Valid() && DecodeWords(i, s) == Ok((ws, r.Remaining()))
    {
      var b := r.ReadBytes(4);
      if b.Err? {
        DecodeWordsFails(i, n, s);
        return Err(b.error);
      }
      ws := ws + [Number(b.value)];
    }
    return Ok(ws);
  }

  lemma {:induction false} DecodeItemsFails(kt: Ty, vt: Ty, i: nat, n: nat, s: Bytes)
    requires i < n && DecodeItems(kt, vt, i + 1, s).Err?
    ensures DecodeItems(kt, vt, n, s) == Err(DecodeItems(kt, vt, i + 1, s).error)
    decreases n
  {
    if i + 1 < n { DecodeItemsFails(kt, vt, i, n - 1, s); }
  }

  method ReadItems(r: BinaryReader, kt: Ty, vt: Ty, n: nat) returns (res: Result<seq<Item>>)
    requires r.Valid()
    modifies r
    ensures r.Valid() && Delivers(DecodeItems(kt, vt, n, old(r.Remaining())), res, r.Remaining())
  {
    ghost var s := r.Remaining();
    var items := [];
    for i := 0 to n
      invariant r.Valid() && DecodeItems(kt, vt, i, s) == Ok((items, r.Remaining()))
    {
      var item := ReadItem(r, kt, vt);
      if item.Err? {
        DecodeItemsFails(kt, vt, i, n, s);
        return Err(item.error);
      }
      items := items + [item.value];
    }
    return Ok(items);
  }

  method ReadExtra(r: BinaryReader, mm: nat) returns (res: Result<(ListState, seq<Word32>)>)
    requires r.Valid()
    modifies r
    ensures r.Valid() && Delivers(DecodeExtra(mm, old(r.Remaining())), res, r.Remaining())
  {
    var unset := ListState(NO_POSITION, 0);
    if HasListState(mm) {
      var l := ReadList(r);
      if l.Err? { return Err(l.error); }
      return Ok((l.value, []));
    } else if HasSketch(mm) {
      var n := r.Read(4);
      if n.Err? { return Err(n.error); }
      if n.value > MAX_SKETCH { return Err(SketchTooLarge); }
      var ws := ReadWords(r, n.value);
      if ws.Err? { return Err(ws.error); }
      return Ok((unset, ws.value));
    } else {
      return Ok((unset, []));
    }
  }

  /** The header fields from header_size on, and the checksum test. */
  method ReadHeaderRest(r: BinaryReader, count: nat) returns (res: Result<Head>)
    requires r.Valid()
    modifies r
    ensures r.Valid() && Delivers(CheckRest(count, r.data, old(r.Remaining())), res, r.Remaining())
  {
    var size := r.Read(4);
    if size.Err? { return Err(size.error); }
    if size.value < HEADER_SIZE || size.value > |r.data| { return Err(BadHeaderSize); }
    var flags := r.Read(4);
    if flags.Err? { return Err(flags.error); }
    ghost var s6 := r.Remaining();
    var features := r.Read(8);
    if features.Err? { return Err(features.error); }
    ValueOfBound(s6[..8]);
    Pow256Eight();
    var stored := r.ReadBytes(4);
    if stored.Err? { return Err(stored.error); }
    var computed := ComputeCrc(r.data[size.value..]);
    if WordBytes(computed) != stored.value { return Err(ChecksumMismatch); }
    return Ok(Head(count, features.value));
  }

  method ReadHeader(r: BinaryReader, expected: nat) returns (res: Result<Head>)
    requires r.Valid() && r.Remaining() == r.data
    modifies r
    ensures r.Valid() && Delivers(CheckHeader(expected, r.data), res, r.Remaining())
  {
    var magic := r.Read(4);
    if magic.Err? { return Err(magic.error); }
    if magic.value != MAGIC { return Err(BadMagic); }
    var version := r.Read(4);
    if version.Err? { return Err(version.error); }
    var count := r.Read(4);
    if count.Err? { return Err(count.error); }
    if count.value > MAX_ITEMS { return Err(TooManyItems); }
    var mm := r.Read(4);
    if mm.Err? { return Err(mm.error); }
    if mm.value != expected { return Err(TypeMismatch); }
    if version.value != VERSION { return Err(UnsupportedVersion); }
    res := ReadHeaderRest(r, count.value);
  }

  /** parse_serialized_data(). */
  method ParseData(expected: nat, kt: Ty, vt: Ty, data: Bytes) returns (res: Result<Parsed>)
    ensures res == Parse(expected, kt, vt, data)
  {
    var r := new BinaryReader(data);
    var head := ReadHeader(r, expected);
    if head.Err? { return Err(head.error); }
    var config := ReadConfig(r);
    if config.Err? { return Err(config.error); }
    var extra := ReadExtra(r, expected);
    if extra.Err? { return Err(extra.error); }
    var items := ReadItems(r, kt, vt, head.value.count);
    if items.Err? { return Err(items.error); }
    return Ok(Parsed(head.value.features, config.value, extra.value.0, extra.value.1, items.value));
  }
}
