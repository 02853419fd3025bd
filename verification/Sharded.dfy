/**
 A sharded cache saved as one blob: the same 36-byte header with the number of
 shards in the count field, then every shard's own blob behind a 4-byte length.
 Two readers exist: deserialize() in serialization.hpp and the parse/rebuild pair
 in lru.hpp. Both parse every shard before any shard is replaced.
 */
module Sharded {
  import opened Basics
  import opened Crc32
  import opened Serde
  import opened Snapshot
  import opened SnapshotIo

  // ------------------------------------------------------------------
  // The format
  // ------------------------------------------------------------------

  function EncodeShards(blobs: seq<Bytes>): Bytes {
    if blobs == [] then [] else
    var last := blobs[|blobs| - 1];
    EncodeShards(blobs[..|blobs| - 1]) + (LittleEndian(|last|, 4) + last)
  }

  function ShardedBlob(blobs: seq<Bytes>): Bytes {
    Framed(|blobs|, SHARDED_LRU, 0, WordBytes(Crc(EncodeShards(blobs))), EncodeShards(blobs))
  }

  /** binary_reader::read_span. */
  function ReadSpan(s: Bytes): Result<(Bytes, Bytes)> {
    var (n, s1) :- ReadInt(s, 4);
    if n > |s1| then Err(SpanTooLong) else Ok((s1[..n], s1[n..]))
  }

  type Parser<!T> = Bytes -> Result<T>

  /** A shard is parsed as a plain LRU cache. */
  function ShardParser(kt: Ty, vt: Ty): Parser<Parsed> { blob => Parse(LRU, kt, vt, blob) }

  function ParseOne<T>(parse: Parser<T>, s: Bytes): Result<(T, Bytes)> {
    var (blob, rest) :- ReadSpan(s);
    var p :- parse(blob);
    Ok((p, rest))
  }

  function ParseShards<T>(parse: Parser<T>, n: nat, s: Bytes): Result<(seq<T>, Bytes)> {
    if n == 0 then Ok(([], s)) else
    var (ps, s1) :- ParseShards(parse, n - 1, s);
    var (p, s2) :- ParseOne(parse, s1);
    Ok((ps + [p], s2))
  }

  /** The number of shards. Only deserialize() looks at the kind of cache. */
  function ShardedHeader(checkKind: bool, data: Bytes): Result<(nat, Bytes)> {
    var (magic, s1) :- ReadInt(data, 4);
    if magic != MAGIC then Err(BadMagic) else
    var (version, s2) :- ReadInt(s1, 4);
    if version != VERSION then Err(UnsupportedVersion) else
    var (n, s3) :- ReadInt(s2, 4);
    var (mm, s4) :- ReadInt(s3, 4);
    if checkKind && mm != SHARDED_LRU then Err(TypeMismatch) else
    var (head, s) :- CheckRest(n, data, s4);
    Ok((head.count, s))
  }

  /** deserialize() on a cache of `n` shards: what the shards are rebuilt from. */
  function Deserialized(n: nat, kt: Ty, vt: Ty, data: Bytes): Result<seq<Parsed>> {
    var (count, s) :- ShardedHeader(true, data);
    if count != n then Err(ShardCountMismatch) else
    var (ps, _) :- ParseShards(ShardParser(kt, vt), count, s);
    Ok(ps)
  }

  /** parse_sharded_serialized_data(). */
  function ParseSharded(kt: Ty, vt: Ty, data: Bytes): Result<seq<Parsed>> {
    var (count, s) :- ShardedHeader(false, data);
    var (ps, _) :- ParseShards(ShardParser(kt, vt), count, s);
    Ok(ps)
  }

  // ------------------------------------------------------------------
  // Save, then parse
  // ------------------------------------------------------------------

  /** All of the results, or the first failure. */
  function Collect<T>(rs: seq<Result<T>>): Result<seq<T>> {
    if rs == [] then Ok([]) else
    var front :- Collect(rs[..|rs| - 1]);
    var last :- rs[|rs| - 1];
    Ok(front + [last])
  }

  lemma {:induction false} CollectFails<T>(rs: seq<Result<T>>, i: nat)
    requires i < |rs| && rs[i].Err?
    ensures Collect(rs).Err?
  {
    if i < |rs| - 1 { CollectFails(rs[..|rs| - 1], i); }
  }

  lemma {:induction false} CollectOk<T>(rs: seq<Result<T>>, vs: seq<T>)
    requires |rs| == |vs| && forall i :: 0 <= i < |rs| ==> rs[i] == Ok(vs[i])
    ensures Collect(rs) == Ok(vs)
  {
    if rs != [] {
      CollectOk(rs[..|rs| - 1], vs[..|vs| - 1]);
      assert vs == vs[..|vs| - 1] + [vs[|vs| - 1]];
    }
  }

  function OwnParses<T>(parse: Parser<T>, blobs: seq<Bytes>): (rs: seq<Result<T>>)
    ensures |rs| == |blobs| && forall i :: 0 <= i < |blobs| ==> rs[i] == parse(blobs[i])
  {
    seq(|blobs|, i requires 0 <= i < |blobs| => parse(blobs[i]))
  }

  /** Lengths and counts the 32-bit fields can hold. */
  ghost predicate Representable(blobs: seq<Bytes>) {
    |blobs| < U32 && forall i :: 0 <= i < |blobs| ==> |blobs[i]| < U32
  }

  lemma SpanBack(blob: Bytes, rest: Bytes)
    requires |blob| < U32
    ensures ReadSpan((LittleEndian(|blob|, 4) + blob) + rest) == Ok((blob, rest))
  {
    PrefixBack(|blob|, blob, rest);
    ReadRawBack(blob, rest);
  }

  /** What ParseShards must return when the shards parse to `c`. */
  function With<T>(c: Result<seq<T>>, rest: Bytes): Result<(seq<T>, Bytes)> {
    match c
    case Ok(ps) => Ok((ps, rest))
    case Err(e) => Err(e)
  }

  lemma ShardsOneMore<T>(parse: Parser<T>, front: Result<seq<T>>, k: nat, blob: Bytes, s: Bytes, rest: Bytes)
    requires |blob| < U32
    requires ParseShards(parse, k, s) == With(front, (LittleEndian(|blob|, 4) + blob) + rest)
    ensures ParseShards(parse, k + 1, s) ==
              match front
              case Err(e) => Err(e)
              case Ok(ps) =>
                match parse(blob)
                case Err(e) => Err(e)
                case Ok(p) => Ok((ps + [p], rest))
  {
    SpanBack(blob, rest);
  }

  lemma {:induction false} ShardsBack<T>(parse: Parser<T>, blobs: seq<Bytes>, rest: Bytes)
    requires Representable(blobs)
    ensures ParseShards(parse, |blobs|, EncodeShards(blobs) + rest) == With(Collect(OwnParses(parse, blobs)), rest)
    decreases |blobs|
  {
    if blobs == [] {
      assert EncodeShards(blobs) + rest == rest;
    } else {
      var front, last := blobs[..|blobs| - 1], blobs[|blobs| - 1];
      var record := LittleEndian(|last|, 4) + last;
      Assoc(EncodeShards(front), record, rest);
      ShardsBack(parse, front, record + rest);
      ShardsOneMore(parse, Collect(OwnParses(parse, front)), |front|, last, EncodeShards(blobs) + rest, rest);
      assert OwnParses(parse, blobs)[..|front|] == OwnParses(parse, front);
    }
  }

  /** A frame of any kind of cache: the kind matters to deserialize() only. */
  lemma ShardedHeaderBack(checkKind: bool, count: nat, mm: Word32, checksum: Bytes, payload: Bytes)
    requires count < U32 && |checksum| == 4
    ensures ShardedHeader(checkKind, Framed(count, mm, 0, checksum, payload))
         == if checkKind && mm != SHARDED_LRU then Err(TypeMismatch)
            else if WordBytes(Crc(payload)) != checksum then Err(ChecksumMismatch)
            else Ok((count, payload))
  {
    var data := Framed(count, mm, 0, checksum, payload);
    FramedPayload(HEADER_SIZE, count, mm, 0, checksum, payload);
    var s4 := LittleEndian(HEADER_SIZE, 4) + (LittleEndian(0, 4) + (LittleEndian(0, 8) + (checksum + payload)));
    IntBack(MAGIC, LittleEndian(VERSION, 4) + (LittleEndian(count, 4) + (LittleEndian(mm, 4) + s4)));
    IntBack(VERSION, LittleEndian(count, 4) + (LittleEndian(mm, 4) + s4));
    IntBack(count, LittleEndian(mm, 4) + s4);
    IntBack(mm, s4);
    RestBack(HEADER_SIZE, count, 0, checksum, payload, data);
  }

  /** The shards of a blob whose header says it is a cache of kind `mm`. */
  function LabelledBlob(mm: nat, blobs: seq<Bytes>): Bytes {
    Framed(|blobs|, mm, 0, WordBytes(Crc(EncodeShards(blobs))), EncodeShards(blobs))
  }

  /**
   Shards saved under any kind: parse_sharded_serialized_data() returns every shard's own parse,
   or the first shard's failure; deserialize() does the same for the sharded kind and refuses every other.
   */
  lemma LabelledThenParsed(mm: Word32, kt: Ty, vt: Ty, blobs: seq<Bytes>)
    requires Representable(blobs)
    ensures var data, own := LabelledBlob(mm, blobs), Collect(OwnParses(ShardParser(kt, vt), blobs));
            && ParseSharded(kt, vt, data) == own
            && Deserialized(|blobs|, kt, vt, data) == if mm == SHARDED_LRU then own else Err(TypeMismatch)
  {
    var payload := EncodeShards(blobs);
    ShardedHeaderBack(true, |blobs|, mm, WordBytes(Crc(payload)), payload);
    ShardedHeaderBack(false, |blobs|, mm, WordBytes(Crc(payload)), payload);
    ShardsBack(ShardParser(kt, vt), blobs, []);
    assert payload + [] == payload;
  }

  /** Either reader, given a saved cache, returns every shard's own parse, or the first shard's failure. */
  lemma SavedThenParsed(kt: Ty, vt: Ty, blobs: seq<Bytes>)
    requires Representable(blobs)
    ensures ParseSharded(kt, vt, ShardedBlob(blobs)) == Collect(OwnParses(ShardParser(kt, vt), blobs))
    ensures Deserialized(|blobs|, kt, vt, ShardedBlob(blobs)) == Collect(OwnParses(ShardParser(kt, vt), blobs))
  {
    LabelledThenParsed(SHARDED_LRU, kt, vt, blobs);
  }

  function SerializedShards(snaps: seq<Snap>): (blobs: seq<Bytes>)
    ensures |blobs| == |snaps|
  {
    if snaps == [] then [] else SerializedShards(snaps[..|snaps| - 1]) + [Serialized(snaps[|snaps| - 1])]
  }

  lemma {:induction false} SerializedShardAt(snaps: seq<Snap>, i: nat)
    requires i < |snaps|
    ensures SerializedShards(snaps)[i] == Serialized(snaps[i])
  {
    if i < |snaps| - 1 { SerializedShardAt(snaps[..|snaps| - 1], i); }
  }

  function CarriedShards(snaps: seq<Snap>): (ps: seq<Parsed>)
    ensures |ps| == |snaps| && forall i :: 0 <= i < |snaps| ==> ps[i] == Carried(snaps[i])
  {
    seq(|snaps|, i requires 0 <= i < |snaps| => Carried(snaps[i]))
  }

  ghost predicate Restorable(snap: Snap, kt: Ty, vt: Ty) {
    snap.mm == LRU && SnapTyped(snap, kt, vt) && SnapWithin(snap)
  }

  lemma ShardParsedBack(kt: Ty, vt: Ty, snap: Snap)
    requires Restorable(snap, kt, vt)
    ensures ShardParser(kt, vt)(Serialized(snap)) == Ok(Carried(snap))
  {
    SnapshotRoundTrip(snap, kt, vt);
  }

  ghost predicate AllRestorable(snaps: seq<Snap>, kt: Ty, vt: Ty) {
    Representable(SerializedShards(snaps)) && forall i :: 0 <= i < |snaps| ==> Restorable(snaps[i], kt, vt)
  }

  lemma ShardsParsedBack(kt: Ty, vt: Ty, snaps: seq<Snap>)
    requires AllRestorable(snaps, kt, vt)
    ensures Collect(OwnParses(ShardParser(kt, vt), SerializedShards(snaps))) == Ok(CarriedShards(snaps))
  {
    var rs, ps := OwnParses(ShardParser(kt, vt), SerializedShards(snaps)), CarriedShards(snaps);
    forall i | 0 <= i < |snaps| ensures rs[i] == Ok(ps[i]) {
      SerializedShardAt(snaps, i);
      ShardParsedBack(kt, vt, snaps[i]);
    }
    CollectOk(rs, ps);
  }

  /** Saving LRU shards within the parser's limits and reading them back gives every shard's state. */
  lemma ShardedRoundTrip(kt: Ty, vt: Ty, snaps: seq<Snap>)
    requires AllRestorable(snaps, kt, vt)
    ensures Deserialized(|snaps|, kt, vt, ShardedBlob(SerializedShards(snaps))) == Ok(CarriedShards(snaps))
  {
    SavedThenParsed(kt, vt, SerializedShards(snaps));
    ShardsParsedBack(kt, vt, snaps);
  }

  /** One shard that does not parse, at any position, fails the whole restore in both readers. */
  lemma OneBadShardFailsAll(kt: Ty, vt: Ty, blobs: seq<Bytes>, i: nat)
    requires Representable(blobs) && i < |blobs| && Parse(LRU, kt, vt, blobs[i]).Err?
    ensures ParseSharded(kt, vt, ShardedBlob(blobs)).Err?
    ensures Deserialized(|blobs|, kt, vt, ShardedBlob(blobs)).Err?
  {
    SavedThenParsed(kt, vt, blobs);
    CollectFails(OwnParses(ShardParser(kt, vt), blobs), i);
  }

  lemma AlteredChecksum(payload: Bytes, altered: Bytes, at: nat)
    requires BurstError(payload, altered, at)
    ensures WordBytes(Crc(altered)) != WordBytes(Crc(payload))
  {
    BurstDetected(payload, altered, at);
    if WordBytes(Crc(altered)) == WordBytes(Crc(payload)) { WordBytesInjective(Crc(altered), Crc(payload)); }
  }

  lemma WrongChecksum(kt: Ty, vt: Ty, n: nat, count: nat, checksum: Bytes, altered: Bytes, data: Bytes)
    requires count < U32 && |checksum| == 4 && WordBytes(Crc(altered)) != checksum
    requires data == Framed(count, SHARDED_LRU, 0, checksum, altered)
    ensures Deserialized(n, kt, vt, data) == Err(ChecksumMismatch)
    ensures ParseSharded(kt, vt, data) == Err(ChecksumMismatch)
  {
    ShardedHeaderBack(true, count, SHARDED_LRU, checksum, altered);
    ShardedHeaderBack(false, count, SHARDED_LRU, checksum, altered);
  }

  /**
   Damage inside 32 consecutive bits of the shard data, wherever it lies, is caught by the outer
   checksum: `payload` was framed, `altered` is what follows the header now.
   */
  lemma AlteredShardsRejected(kt: Ty, vt: Ty, n: nat, count: nat, payload: Bytes, altered: Bytes, at: nat)
    requires count < U32 && BurstError(payload, altered, at)
    ensures var data := Framed(count, SHARDED_LRU, 0, WordBytes(Crc(payload)), altered);
            && Deserialized(n, kt, vt, data) == Err(ChecksumMismatch)
            && ParseSharded(kt, vt, data) == Err(ChecksumMismatch)
  {
    AlteredChecksum(payload, altered, at);
    var checksum := WordBytes(Crc(payload));
    WrongChecksum(kt, vt, n, count, checksum, altered, Framed(count, SHARDED_LRU, 0, checksum, altered));
  }

  lemma {:induction false} ShardsCounted<T>(parse: Parser<T>, n: nat, s: Bytes)
    ensures ParseShards(parse, n, s).Ok? ==> |ParseShards(parse, n, s).value.0| == n
  {
    if n != 0 { ShardsCounted(parse, n - 1, s); }
  }

  ghost predicate SaysSharded(data: Bytes) { |data| >= 16 && FieldAt(data, 12, 4) == SHARDED_LRU }

  lemma HeadersAgree(data: Bytes)
    ensures ShardedHeader(true, data).Ok? <==> ShardedHeader(false, data).Ok? && SaysSharded(data)
    ensures ShardedHeader(true, data).Ok? ==> ShardedHeader(true, data) == ShardedHeader(false, data)
  {
    assert data[0..] == data;
    ReadAt(data, 0);
    if |data| >= 4 { ReadAt(data, 4); }
    if |data| >= 8 { ReadAt(data, 8); }
    if |data| >= 12 { ReadAt(data, 12); }
  }

  /**
   The two readers restore the same shards from the same bytes, except that only one of them
   insists on the sharded kind in the header.
   */
  lemma ReadersAgree(n: nat, kt: Ty, vt: Ty, data: Bytes)
    ensures Deserialized(n, kt, vt, data).Ok? <==>
              && SaysSharded(data)
              && ParseSharded(kt, vt, data).Ok? && |ParseSharded(kt, vt, data).value| == n
    ensures Deserialized(n, kt, vt, data).Ok? ==> Deserialized(n, kt, vt, data) == ParseSharded(kt, vt, data)
  {
    HeadersAgree(data);
    if ShardedHeader(false, data).Ok? {
      var (count, s) := ShardedHeader(false, data).value;
      ShardsCounted(ShardParser(kt, vt), count, s);
    }
  }

  /** A blob of the plain LRU kind with no shards: one reader accepts it and the other refuses it. */
  lemma ReadersDisagree(kt: Ty, vt: Ty) returns (data: Bytes)
    ensures ParseSharded(kt, vt, data) == Ok([]) && Deserialized(0, kt, vt, data) == Err(TypeMismatch)
  {
    data := LabelledBlob(LRU, []);
    LabelledThenParsed(LRU, kt, vt, []);
  }

  // ------------------------------------------------------------------
  // Which damage the outer checksum covers
  // ------------------------------------------------------------------

  /** What the header check makes of the fields. */
  function ShardedJudged(checkKind: bool, f: Fields, data: Bytes): Result<(nat, Bytes)>
    requires |data| >= HEADER_SIZE
  {
    if f.magic != MAGIC then Err(BadMagic)
    else if f.version != VERSION then Err(UnsupportedVersion)
    else if checkKind && f.mm != SHARDED_LRU then Err(TypeMismatch)
    else if f.size < HEADER_SIZE || f.size > |data| then Err(BadHeaderSize)
    else if WordBytes(Crc(data[f.size..])) != f.stored then Err(ChecksumMismatch)
    else Ok((f.count, data[HEADER_SIZE..]))
  }

  lemma ShardedHeaderJudged(checkKind: bool, data: Bytes)
    ensures ShardedHeader(checkKind, data).Ok? ==> |data| >= HEADER_SIZE
    ensures |data| >= HEADER_SIZE ==> ShardedHeader(checkKind, data) == ShardedJudged(checkKind, FieldsOf(data), data)
  {
    assert data[0..] == data;
    ReadAt(data, 0);
    if |data| >= 4 { ReadAt(data, 4); }
    if |data| >= 8 { ReadAt(data, 8); }
    if |data| >= 12 { ReadAt(data, 12); }
    if |data| >= HEADER_SIZE {
      RestJudged(FieldAt(data, 8, 4), data);
    } else if |data| >= 16 {
      ShortFails(FieldAt(data, 8, 4), data);
    }
  }

  lemma SameShardedJudged(checkKind: bool, f: Fields, data: Bytes, blob: Bytes)
    requires |data| == |blob| >= HEADER_SIZE && ShardedJudged(checkKind, f, data).Ok?
    ensures HEADER_SIZE <= f.size <= |data|
    ensures ShardedJudged(checkKind, f, blob)
         == if WordBytes(Crc(blob[f.size..])) != WordBytes(Crc(data[f.size..])) then Err(ChecksumMismatch)
            else Ok((f.count, blob[HEADER_SIZE..]))
  {
  }

  /** Behind an accepted header any other bytes meet the same header, and only the checksum can refuse them. */
  lemma SameShardedHeader(checkKind: bool, data: Bytes, altered: Bytes, blob: Bytes)
    requires ShardedHeader(checkKind, data).Ok? && |data| == |blob| >= HEADER_SIZE
    requires blob == data[..HEADER_SIZE] + altered
    ensures var size := FieldAt(data, 16, 4);
            && HEADER_SIZE <= size <= |data|
            && ShardedHeader(checkKind, data) == Ok((ShardedHeader(checkKind, data).value.0, data[HEADER_SIZE..]))
            && ShardedHeader(checkKind, blob)
            == if WordBytes(Crc(blob[size..])) != WordBytes(Crc(data[size..])) then Err(ChecksumMismatch)
               else Ok((ShardedHeader(checkKind, data).value.0, altered))
  {
    assert data[..HEADER_SIZE] == blob[..HEADER_SIZE] && blob[HEADER_SIZE..] == altered;
    ShardedHeaderJudged(checkKind, data);
    ShardedHeaderJudged(checkKind, blob);
    SameFields(data, blob);
    SameShardedJudged(checkKind, FieldsOf(data), data, blob);
  }

  /** The header check lets no damage within 32 consecutive bits behind the fixed fields through. */
  ghost predicate HeaderRefusesBursts(checkKind: bool, data: Bytes)
    requires |data| >= HEADER_SIZE
  {
    forall altered, at :: BurstError(data[HEADER_SIZE..], altered, at) ==>
      ShardedHeader(checkKind, data[..HEADER_SIZE] + altered).Err?
  }

  lemma CoveredShardsRefused(checkKind: bool, data: Bytes, altered: Bytes, at: nat)
    requires ShardedHeader(checkKind, data).Ok? && |data| >= HEADER_SIZE && FieldAt(data, 16, 4) == HEADER_SIZE
    requires BurstError(data[HEADER_SIZE..], altered, at)
    ensures ShardedHeader(checkKind, data[..HEADER_SIZE] + altered) == Err(ChecksumMismatch)
  {
    var payload, blob := data[HEADER_SIZE..], data[..HEADER_SIZE] + altered;
    assert blob[HEADER_SIZE..] == altered;
    SameShardedHeader(checkKind, data, altered, blob);
    AlteredChecksum(payload, altered, at);
  }

  lemma UncoveredShardsPass(checkKind: bool, data: Bytes)
    requires ShardedHeader(checkKind, data).Ok? && |data| >= HEADER_SIZE
    requires HEADER_SIZE < FieldAt(data, 16, 4) <= |data|
    ensures !HeaderRefusesBursts(checkKind, data)
  {
    var s, size := data[HEADER_SIZE..], FieldAt(data, 16, 4);
    var b: Byte := if s[0] == 0 then 1 else 0;
    var altered := s[0 := b];
    var blob := data[..HEADER_SIZE] + altered;
    assert blob[size..] == data[size..];
    SameShardedHeader(checkKind, data, altered, blob);
    FourBytesAreABurst(s, altered, 0);
  }

  /** In both readers, the outer checksum covers all that follows the header exactly when header_size is 36. */
  lemma ShardsCoveredExactly(checkKind: bool, data: Bytes)
    requires ShardedHeader(checkKind, data).Ok?
    ensures |data| >= HEADER_SIZE
    ensures HeaderRefusesBursts(checkKind, data) <==> FieldAt(data, 16, 4) == HEADER_SIZE
  {
    ShardedHeaderJudged(checkKind, data);
    if FieldAt(data, 16, 4) == HEADER_SIZE {
      forall altered, at | BurstError(data[HEADER_SIZE..], altered, at)
        ensures ShardedHeader(checkKind, data[..HEADER_SIZE] + altered).Err?
      {
        CoveredShardsRefused(checkKind, data, altered, at);
      }
    } else {
      UncoveredShardsPass(checkKind, data);
    }
  }

  /** What `n` shards parse to, with the first result replaced. */
  ghost predicate Replaces<T>(parse: Parser<T>, n: nat, s: Bytes, s': Bytes, x: T) {
    && ParseShards(parse, n, s).Ok? && |ParseShards(parse, n, s).value.0| == n > 0
    && var (ps, rest) := ParseShards(parse, n, s).value; ParseShards(parse, n, s') == Ok((ps[0 := x], rest))
  }

  lemma ReplacesOneMore<T>(parse: Parser<T>, n: nat, s: Bytes, s': Bytes, x: T)
    requires Replaces(parse, n, s, s', x) && ParseShards(parse, n + 1, s).Ok?
    ensures Replaces(parse, n + 1, s, s', x)
  {
    var (ps, rest) := ParseShards(parse, n, s).value;
    ShardsStep(parse, n, s, ps, rest);
    ShardsStep(parse, n, s', ps[0 := x], rest);
    var p := ParseOne(parse, rest).value.0;
    assert (ps + [p])[0 := x] == ps[0 := x] + [p];
  }

  /** Another first shard that parses changes the first result and no other. */
  lemma {:induction false} FirstShardReplaced<T>(parse: Parser<T>, n: nat, s: Bytes, s': Bytes, x: T)
    requires n > 0 && ParseShards(parse, n, s).Ok? && ReadSpan(s).Ok? && parse(ReadSpan(s).value.0).Ok?
    requires ReadSpan(s').Ok? && ReadSpan(s').value.1 == ReadSpan(s).value.1 && parse(ReadSpan(s').value.0) == Ok(x)
    ensures Replaces(parse, n, s, s', x)
    ensures ParseShards(parse, n, s).value.0[0] == parse(ReadSpan(s).value.0).value
  {
    if n == 1 {
      FirstShard(parse, s);
      FirstShard(parse, s');
      assert ParseShards(parse, 1, s).value.0[0 := x] == [x];
    } else {
      FirstShardReplaced(parse, n - 1, s, s', x);
      ReplacesOneMore(parse, n - 1, s, s', x);
    }
  }

  lemma FirstShard<T>(parse: Parser<T>, s: Bytes)
    requires ReadSpan(s).Ok? && parse(ReadSpan(s).value.0).Ok?
    ensures ParseShards(parse, 1, s) == Ok(([parse(ReadSpan(s).value.0).value], ReadSpan(s).value.1))
  {
    var p := parse(ReadSpan(s).value.0).value;
    assert ParseShards(parse, 0, s) == Ok(([], s)) && [] + [p] == [p];
  }

  lemma {:induction false} FirstShardParses<T>(parse: Parser<T>, n: nat, s: Bytes)
    requires n > 0 && ParseShards(parse, n, s).Ok?
    ensures ReadSpan(s).Ok? && parse(ReadSpan(s).value.0).Ok?
  {
    if n == 1 {
      assert ParseShards(parse, 0, s) == Ok(([], s));
    } else {
      FirstShardParses(parse, n - 1, s);
    }
  }

  /** Byte 28 behind the header is byte 24 of the first shard's own blob. */
  lemma SpanAltered(s: Bytes, b: Byte)
    requires ReadSpan(s).Ok? && |ReadSpan(s).value.0| > 24
    ensures |s| > 28 && s[28] == ReadSpan(s).value.0[24]
    ensures ReadSpan(s[28 := b]) == Ok((ReadSpan(s).value.0[24 := b], ReadSpan(s).value.1))
  {
    var n, s' := ValueOf(s[..4]), s[28 := b];
    assert s'[..4] == s[..4] && s'[4..] == s[4..][24 := b];
    assert s'[4..][..n] == s[4..][..n][24 := b] && s'[4..][n..] == s[4..][n..];
  }

  /** The lowest byte of the first shard's features is under no checksum but the outer one. */
  lemma FirstFeaturesReplaced(kt: Ty, vt: Ty, n: nat, s: Bytes, b: Byte)
    requires n > 0 && ParseShards(ShardParser(kt, vt), n, s).Ok?
    requires |s| > 28 ==> b != s[28]
    ensures |s| > 28
    ensures var now := ParseShards(ShardParser(kt, vt), n, s[28 := b]);
            now.Ok? && now.value.0 != ParseShards(ShardParser(kt, vt), n, s).value.0
  {
    var parse := ShardParser(kt, vt);
    FirstShardParses(parse, n, s);
    var (blob, rest) := ReadSpan(s).value;
    DecodedFrom(LRU, kt, vt, blob);
    SpanAltered(s, b);
    FeaturesUncovered(LRU, kt, vt, blob, b, blob[24 := b]);
    FirstShardReplaced(parse, n, s, s[28 := b], parse(blob[24 := b]).value);
  }

  /**
   When header_size reaches past byte 64, that byte may be anything: both readers still accept
   the data, and restore other features for the first shard.
   */
  lemma UncoveredShardsAccepted(kt: Ty, vt: Ty, data: Bytes, b: Byte, blob: Bytes)
    requires ParseSharded(kt, vt, data).Ok? && ParseSharded(kt, vt, data).value != []
    requires |data| > 64 && FieldAt(data, 16, 4) > 64 && b != data[64] && blob == data[64 := b]
    ensures ParseSharded(kt, vt, blob).Ok? && ParseSharded(kt, vt, blob) != ParseSharded(kt, vt, data)
    ensures var n := |ParseSharded(kt, vt, data).value|;
            Deserialized(n, kt, vt, data).Ok? ==>
              Deserialized(n, kt, vt, blob).Ok? && Deserialized(n, kt, vt, blob) != Deserialized(n, kt, vt, data)
  {
    var s, size, n := data[HEADER_SIZE..], FieldAt(data, 16, 4), |ParseSharded(kt, vt, data).value|;
    var altered := s[28 := b];
    assert blob == data[..HEADER_SIZE] + altered;
    SameShardedHeader(false, data, altered, blob);
    assert blob[size..] == data[size..];
    ShardsCounted(ShardParser(kt, vt), ShardedHeader(false, data).value.0, s);
    FirstFeaturesReplaced(kt, vt, n, s, b);
    SameKind(data, blob);
    ShardsCounted(ShardParser(kt, vt), n, altered);
    ReadersAgree(n, kt, vt, data);
    ReadersAgree(n, kt, vt, blob);
  }

  lemma SameKind(data: Bytes, blob: Bytes)
    requires |data| == |blob| >= HEADER_SIZE && data[..HEADER_SIZE] == blob[..HEADER_SIZE]
    ensures SaysSharded(data) <==> SaysSharded(blob)
  {
    SameField(data, blob, 12, 4);
  }

  // ------------------------------------------------------------------
  // The operations
  // ------------------------------------------------------------------

  lemma EncodeShardsOneMore(blobs: seq<Bytes>, i: nat)
    requires i < |blobs|
    ensures EncodeShards(blobs[..i + 1]) == EncodeShards(blobs[..i]) + (LittleEndian(|blobs[i]|, 4) + blobs[i])
  {
    assert blobs[..i + 1][..i] == blobs[..i];
  }

  method WriteShards(w: BinaryWriter, blobs: seq<Bytes>)
    modifies w
    ensures w.buffer == old(w.buffer) + EncodeShards(blobs)
  {
    for i := 0 to |blobs|
      invariant w.buffer == old(w.buffer) + EncodeShards(blobs[..i])
    {
      WritePrefixed(w, blobs[i]);
      EncodeShardsOneMore(blobs, i);
      Assoc(old(w.buffer), EncodeShards(blobs[..i]), LittleEndian(|blobs[i]|, 4) + blobs[i]);
    }
    assert blobs[..|blobs|] == blobs;
  }

  lemma SerializedOneMore(snaps: seq<Snap>, i: nat)
    requires i < |snaps|
    ensures SerializedShards(snaps[..i + 1]) == SerializedShards(snaps[..i]) + [Serialized(snaps[i])]
  {
    assert snaps[..i + 1][..i] == snaps[..i];
  }

  method SerializeNext(blobs: seq<Bytes>, snaps: seq<Snap>, i: nat) returns (more: seq<Bytes>)
    requires i < |snaps| && blobs == SerializedShards(snaps[..i])
    ensures more == SerializedShards(snaps[..i + 1])
  {
    SerializedOneMore(snaps, i);
    var blob := SerializeSnapshot(snaps[i]);
    more := blobs + [blob];
  }

  method SerializeEach(snaps: seq<Snap>) returns (blobs: seq<Bytes>)
    ensures blobs == SerializedShards(snaps)
  {
    blobs := [];
    for i := 0 to |snaps|
      invariant blobs == SerializedShards(snaps[..i])
    {
      blobs := SerializeNext(blobs, snaps, i);
    }
    assert snaps[..|snaps|] == snaps;
  }

  /** serialize() of a sharded cache; collect_sharded_snapshot() writes the same bytes. */
  method SerializeSharded(snaps: seq<Snap>) returns (data: Bytes)
    ensures data == ShardedBlob(SerializedShards(snaps))
  {
    var blobs := SerializeEach(snaps);
    var w := new BinaryWriter();
    var kind, features := SHARDED_LRU, 0;
    var at := WriteHeader(w, |blobs|, kind, features);
    WriteShards(w, blobs);
    Appended(|blobs|, kind, features, LittleEndian(0, 4), EncodeShards(blobs));
    Seal(w, at, |blobs|, kind, features, EncodeShards(blobs));
    data := w.buffer;
  }

  method ReadSpanFrom(r: BinaryReader) returns (res: Result<Bytes>)
    requires r.Valid()
    modifies r
    ensures r.Valid() && Delivers(ReadSpan(old(r.Remaining())), res, r.Remaining())
  {
    var n := r.Read(4);
    if n.Err? { return Err(n.error); }
    if n.value > |r.data| - r.pos { return Err(SpanTooLong); }
    res := r.ReadBytes(n.value);
  }

  lemma {:induction false} ParseShardsFails<T>(parse: Parser<T>, i: nat, n: nat, s: Bytes)
    requires i < n && ParseShards(parse, i + 1, s).Err?
    ensures ParseShards(parse, n, s) == Err(ParseShards(parse, i + 1, s).error)
    decreases n
  {
    if i + 1 < n { ParseShardsFails(parse, i, n - 1, s); }
  }

  lemma ShardsStep<T>(parse: Parser<T>, i: nat, s: Bytes, ps: seq<T>, rest: Bytes)
    requires ParseShards(parse, i, s) == Ok((ps, rest))
    ensures ParseShards(parse, i + 1, s) ==
              match ParseOne(parse, rest)
              case Ok((p, more)) => Ok((ps + [p], more))
              case Err(e) => Err(e)
  {
  }

  method ReadShard(r: BinaryReader, kt: Ty, vt: Ty) returns (res: Result<Parsed>)
    requires r.Valid()
    modifies r
    ensures r.Valid() && Delivers(ParseOne(ShardParser(kt, vt), old(r.Remaining())), res, r.Remaining())
  {
    var blob := ReadSpanFrom(r);
    if blob.Err? { return Err(blob.error); }
    res := ParseData(LRU, kt, vt, blob.value);
  }

  method ReadShards(r: BinaryReader, kt: Ty, vt: Ty, n: nat) returns (res: Result<seq<Parsed>>)
    requires r.Valid()
    modifies r
    ensures r.Valid() && Delivers(ParseShards(ShardParser(kt, vt), n, old(r.Remaining())), res, r.Remaining())
    ensures res.Ok? ==> |res.value| == n
  {
    ghost var s, parse := r.Remaining(), ShardParser(kt, vt);
    var ps := [];
    for i := 0 to n
      invariant r.Valid() && |ps| == i && ParseShards(parse, i, s) == Ok((ps, r.Remaining()))
    {
      ShardsStep(parse, i, s, ps, r.Remaining());
      var p := ReadShard(r, kt, vt);
      if p.Err? {
        ParseShardsFails(parse, i, n, s);
        return Err(p.error);
      }
      ps := ps + [p.value];
    }
    return Ok(ps);
  }

  method ReadShardedHeader(r: BinaryReader, checkKind: bool) returns (res: Result<nat>)
    requires r.Valid() && r.Remaining() == r.data
    modifies r
    ensures r.Valid() && Delivers(ShardedHeader(checkKind, r.data), res, r.Remaining())
  {
    var magic := r.Read(4);
    if magic.Err? { return Err(magic.error); }
    if magic.value != MAGIC { return Err(BadMagic); }
    var version := r.Read(4);
    if version.Err? { return Err(version.error); }
    if version.value != VERSION { return Err(UnsupportedVersion); }
    var n := r.Read(4);
    if n.Err? { return Err(n.error); }
    var mm := r.Read(4);
    if mm.Err? { return Err(mm.error); }
    if checkKind && mm.value != SHARDED_LRU { return Err(TypeMismatch); }
    var head := ReadHeaderRest(r, n.value);
    if head.Err? { return Err(head.error); }
    return Ok(head.value.count);
  }

  // ------------------------------------------------------------------
  // Rebuilding the shards
  // ------------------------------------------------------------------

  /** Memory runs out while this shard is refilled, which leaves it in this state. */
  datatype Crash = Crash(shard: nat, left: Parsed)

  /** The first shard whose configuration set_config() refuses, or the number of shards. */
  function FirstRefused(parsed: seq<Parsed>): (r: nat)
    ensures r <= |parsed| && (forall i :: 0 <= i < r ==> Applies(parsed[i].config))
    ensures r < |parsed| ==> !Applies(parsed[r].config)
  {
    if parsed == [] then 0 else
    var m := |parsed| - 1;
    var r := FirstRefused(parsed[..m]);
    if r == m && Applies(parsed[m].config) then m + 1 else r
  }

  ghost predicate AllApply(parsed: seq<Parsed>) {
    forall i :: 0 <= i < |parsed| ==> Applies(parsed[i].config)
  }

  /** The shard, if any, at which memory runs out before a configuration is refused. */
  predicate CrashesIn(parsed: seq<Parsed>, crash: Option<Crash>) {
    crash.Some? && crash.value.shard < |parsed| && crash.value.shard <= FirstRefused(parsed)
  }

  /** `front` before position `i`, `x` there, and `back` behind it. */
  function Spliced<T>(front: seq<T>, i: nat, x: T, back: seq<T>): (r: seq<T>)
    requires i < |front| == |back|
    ensures |r| == |front|
    ensures forall k :: 0 <= k < |r| ==> r[k] == if k < i then front[k] else if k == i then x else back[k]
  {
    front[..i] + [x] + back[i + 1..]
  }

  /** A refill that worked under a configuration that did not. */
  function Refilled(was: Parsed, p: Parsed): Parsed { p.(config := was.config) }

  /**
   The shards after the second phase: those before the one that throws are replaced, those behind it
   are as they were, and one whose configuration is refused has its new items under its old configuration.
   */
  function Rebuilt(was: seq<Parsed>, parsed: seq<Parsed>, crash: Option<Crash>): (r: seq<Parsed>)
    requires |was| == |parsed|
    ensures |r| == |was|
  {
    var at := FirstRefused(parsed);
    if CrashesIn(parsed, crash) then Spliced(parsed, crash.value.shard, crash.value.left, was)
    else if at < |parsed| then Spliced(parsed, at, Refilled(was[at], parsed[at]), was)
    else parsed
  }

  /** The loop has replaced the shards before `i`. */
  ghost predicate ReplacedTo<T>(was: seq<T>, parsed: seq<T>, now: seq<T>, i: nat) {
    && |now| == |was| == |parsed| && i <= |now|
    && forall k :: 0 <= k < |now| ==> now[k] == if k < i then parsed[k] else was[k]
  }

  lemma Stopped<T>(was: seq<T>, parsed: seq<T>, now: seq<T>, i: nat, x: T)
    requires ReplacedTo(was, parsed, now, i) && i < |now|
    ensures now[i := x] == Spliced(parsed, i, x, was)
  {
  }

  function Outcome(parsed: seq<Parsed>, crash: Option<Crash>): (r: Result<()>)
    ensures crash.None? ==> (r.Ok? <==> AllApply(parsed))
  {
    if CrashesIn(parsed, crash) then Err(OutOfMemory)
    else if FirstRefused(parsed) < |parsed| then Err(BadConfig)
    else Ok(())
  }

  /** Whatever the shards held, either all of them are replaced or none is. */
  ghost predicate AllOrNothing(parsed: seq<Parsed>) {
    forall was: seq<Parsed> :: |was| == |parsed| ==>
      Rebuilt(was, parsed, None) == parsed || Rebuilt(was, parsed, None) == was
  }

  /** A state that shares neither list state nor, as it has a good one, configuration with `p`. */
  function Unlike(p: Parsed): (r: Parsed)
    ensures Applies(r.config) && r.list != p.list
  {
    var config := p.config.(insertionSpec := 0, refreshRatio := LittleEndian(0, 8));
    Pow256Eight();
    ValueOfLittleEndian(0, 8);
    p.(config := config, list := ListState(NO_POSITION, if p.list.tailSize == 0 then 1 else 0))
  }

  /** With memory enough, a restore is all or nothing exactly when every shard's configuration is accepted. */
  lemma AllOrNothingExactly(parsed: seq<Parsed>)
    ensures AllOrNothing(parsed) <==> AllApply(parsed)
  {
    var at := FirstRefused(parsed);
    if at < |parsed| {
      var was := parsed[at := Unlike(parsed[at])];
      var r := Rebuilt(was, parsed, None);
      assert r[at] == parsed[at].(config := was[at].config);
    }
  }

  /** A sharded cache; each shard is identified with the parsed state it was last rebuilt from. */
  class ShardedCache {
    const kt: Ty
    const vt: Ty
    var shards: seq<Parsed>

    constructor (kt: Ty, vt: Ty, shards: seq<Parsed>)
      ensures this.kt == kt && this.vt == vt && this.shards == shards
    {
      this.kt, this.vt, this.shards := kt, vt, shards;
    }

    /** rebuild_from_parsed() of one shard: refills it, then applies its configuration if that is valid. */
    method RebuildShard(i: nat, p: Parsed) returns (ok: bool)
      requires i < |shards|
      modifies this
      ensures ok <==> Applies(p.config)
      ensures shards == old(shards)[i := if ok then p else Refilled(old(shards)[i], p)]
    {
      shards := shards[i := Refilled(shards[i], p)];
      ok := Applies(p.config);
      if ok { shards := shards[i := shards[i].(config := p.config)]; }
    }

    /** Replaces the shards one by one; an exception leaves the later ones as they were. */
    method Rebuild(parsed: seq<Parsed>, crash: Option<Crash>) returns (res: Result<()>)
      requires |parsed| == |shards|
      modifies this
      ensures shards == Rebuilt(old(shards), parsed, crash) && res == Outcome(parsed, crash)
    {
      for i := 0 to |parsed|
        invariant i <= FirstRefused(parsed) && (crash.Some? ==> crash.value.shard >= i)
        invariant ReplacedTo(old(shards), parsed, shards, i)
      {
        ghost var now := shards;
        if crash.Some? && crash.value.shard == i {
          shards := shards[i := crash.value.left];
          Stopped(old(shards), parsed, now, i, crash.value.left);
          return Err(OutOfMemory);
        }
        var ok := RebuildShard(i, parsed[i]);
        if !ok {
          Stopped(old(shards), parsed, now, i, Refilled(now[i], parsed[i]));
          return Err(BadConfig);
        }
      }
      return Ok(());
    }

    /**
     deserialize(): data that does not parse is a failure with every shard unchanged. Otherwise the
     shards are rebuilt, all of them exactly when, memory aside, every configuration is accepted.
     */
    method Deserialize(data: Bytes, crash: Option<Crash>) returns (res: Result<()>)
      modifies this
      ensures match Deserialized(|old(shards)|, kt, vt, data)
              case Ok(ps) =>
                |ps| == |old(shards)| && shards == Rebuilt(old(shards), ps, crash) && res == Outcome(ps, crash)
              case Err(e) => res == Err(e) && shards == old(shards)
      ensures var parsed := Deserialized(|old(shards)|, kt, vt, data);
              crash.None? ==> (res.Ok? <==> parsed.Ok? && AllApply(parsed.value))
    {
      var r := new BinaryReader(data);
      var count := ReadShardedHeader(r, true);
      if count.Err? { return Err(count.error); }
      if count.value != |shards| { return Err(ShardCountMismatch); }
      var parsed := ReadShards(r, kt, vt, count.value);
      if parsed.Err? { return Err(parsed.error); }
      res := Rebuild(parsed.value, crash);
    }

    /** load() on a sharded cache: parse without the lock, then check the count and rebuild. */
    method Load(data: Bytes, crash: Option<Crash>) returns (res: Result<()>)
      modifies this
      ensures match ParseSharded(kt, vt, data)
              case Ok(ps) =>
                if |ps| != |old(shards)| then res == Err(ShardCountMismatch) && shards == old(shards)
                else shards == Rebuilt(old(shards), ps, crash) && res == Outcome(ps, crash)
              case Err(e) => res == Err(e) && shards == old(shards)
      ensures var parsed := ParseSharded(kt, vt, data);
              crash.None? ==> (res.Ok? <==> parsed.Ok? && |parsed.value| == |old(shards)| && AllApply(parsed.value))
    {
      var r := new BinaryReader(data);
      var count := ReadShardedHeader(r, false);
      if count.Err? { return Err(count.error); }
      var parsed := ReadShards(r, kt, vt, count.value);
      if parsed.Err? { return Err(parsed.error); }
      if |parsed.value| != |shards| { return Err(ShardCountMismatch); }
      res := Rebuild(parsed.value, crash);
    }
  }

  // ------------------------------------------------------------------
  // A restore that stops half-way
  // ------------------------------------------------------------------

  /** An empty LRU cache with this insertion point specification and tail size. */
  function EmptyShard(spec: Byte, tail: Word32): Snap {
    var zero := LittleEndian(0, 8);
    var config := Config(60, zero, true, true, true, spec, 0, zero, zero, true, 0, zero, 0);
    Snap(LRU, 0, config, ListState(NO_POSITION, tail), [], [])
  }

  lemma {:induction false} FieldsShort(fs: seq<Bytes>)
    requires forall i :: 0 <= i < |fs| ==> |fs[i]| <= 8
    ensures |EncodeFields(fs)| <= 8 * |fs|
  {
    if fs != [] { FieldsShort(fs[1..]); }
  }

  lemma EmptyShardShort(spec: Byte, tail: Word32)
    ensures |Serialized(EmptyShard(spec, tail))| < U32
  {
    var snap := EmptyShard(spec, tail);
    ConfigShaped(snap.config);
    FieldsShort(ConfigFields(snap.config));
    FieldsShort([LittleEndian(NO_POSITION, 4), LittleEndian(tail, 4),
                 LittleEndian(0, 4), LittleEndian(0, 4), LittleEndian(0, 4)]);
    FramedPayload(HEADER_SIZE, 0, LRU, 0, WordBytes(Crc(Payload(snap))), Payload(snap));
  }

  /** A shard that can be saved and read back. */
  ghost function Portable(kt: Ty, vt: Ty): Snap -> bool { snap => Restorable(snap, kt, vt) && |Serialized(snap)| < U32 }

  lemma PortableRestorable(snaps: seq<Snap>, kt: Ty, vt: Ty, portable: Snap -> bool)
    requires portable == Portable(kt, vt)
    requires |snaps| < U32 && forall i :: 0 <= i < |snaps| ==> portable(snaps[i])
    ensures AllRestorable(snaps, kt, vt)
  {
    var blobs := SerializedShards(snaps);
    forall i | 0 <= i < |blobs| ensures |blobs[i]| < U32 {
      assert portable(snaps[i]);
      SerializedShardAt(snaps, i);
    }
    forall i | 0 <= i < |snaps| ensures Restorable(snaps[i], kt, vt) { assert portable(snaps[i]); }
  }

  lemma Both<T>(s: seq<T>, p: T -> bool)
    requires |s| == 2 && p(s[0]) && p(s[1])
    ensures forall i :: 0 <= i < |s| ==> p(s[i])
  {
  }

  lemma TwoCarried(snaps: seq<Snap>)
    requires |snaps| == 2
    ensures CarriedShards(snaps) == [Carried(snaps[0]), Carried(snaps[1])]
  {
  }

  lemma EmptyShardPortable(spec: Byte, tail: Word32, kt: Ty, vt: Ty)
    ensures Portable(kt, vt)(EmptyShard(spec, tail))
  {
    EmptyShardShort(spec, tail);
  }

  lemma OnlyZeroApplies()
    ensures Applies(EmptyShard(0, 1).config) && !Applies(EmptyShard(8, 1).config)
  {
    Pow256Eight();
    ValueOfLittleEndian(0, 8);
  }

  lemma StopsAtSecond(was: seq<Parsed>, a: Parsed, b: Parsed)
    requires |was| == 2 && Applies(a.config) && !Applies(b.config)
    ensures Rebuilt(was, [a, b], None) == [a, Refilled(was[1], b)] && Outcome([a, b], None) == Err(BadConfig)
  {
    assert [a, b][0] == a && [a, b][1] == b;
    assert FirstRefused([a, b]) == 1;
  }

  /** The blob of two shards, and what is parsed from it. */
  lemma TwoParsed(kt: Ty, vt: Ty, snaps: seq<Snap>)
    requires |snaps| == 2 && Portable(kt, vt)(snaps[0]) && Portable(kt, vt)(snaps[1])
    ensures Deserialized(|snaps|, kt, vt, ShardedBlob(SerializedShards(snaps))) == Ok(CarriedShards(snaps))
  {
    var portable := Portable(kt, vt);
    Both(snaps, portable);
    PortableRestorable(snaps, kt, vt, portable);
    ShardedRoundTrip(kt, vt, snaps);
  }

  /**
   A blob of two shards with good checksums whose second one has a configuration that is refused:
   deserialize() throws with the first shard replaced and the second half replaced.
   */
  method RestoreTwo(kt: Ty, vt: Ty, snaps: seq<Snap>, before: seq<Parsed>) returns (res: Result<()>, after: seq<Parsed>)
    requires |snaps| == |before| == 2 && Portable(kt, vt)(snaps[0]) && Portable(kt, vt)(snaps[1])
    requires Applies(snaps[0].config) && !Applies(snaps[1].config)
    ensures res == Err(BadConfig) && after == [Carried(snaps[0]), Refilled(before[1], Carried(snaps[1]))]
  {
    var data := SerializeSharded(snaps);
    TwoParsed(kt, vt, snaps);
    TwoCarried(snaps);
    StopsAtSecond(before, Carried(snaps[0]), Carried(snaps[1]));
    var cache := new ShardedCache(kt, vt, before);
    res := cache.Deserialize(data, None);
    after := cache.shards;
  }

  /** The same with two empty shards, the second with an insertion point specification of 8. */
  method HalfRestored(kt: Ty, vt: Ty) returns (res: Result<()>, before: seq<Parsed>, after: seq<Parsed>)
    ensures res == Err(BadConfig) && before == [Carried(EmptyShard(0, 0)), Carried(EmptyShard(0, 0))]
    ensures after == [Carried(EmptyShard(0, 1)), Refilled(before[1], Carried(EmptyShard(8, 1)))]
    ensures after[0] != before[0] && after[1] != before[1]
  {
    EmptyShardPortable(0, 1, kt, vt);
    EmptyShardPortable(8, 1, kt, vt);
    OnlyZeroApplies();
    before := [Carried(EmptyShard(0, 0)), Carried(EmptyShard(0, 0))];
    res, after := RestoreTwo(kt, vt, [EmptyShard(0, 1), EmptyShard(8, 1)], before);
  }
}
