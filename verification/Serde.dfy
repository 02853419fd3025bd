/**
 The value codec: little-endian integers, length-prefixed strings and byte
 vectors, pairs, vectors and optionals, with the writer and reader objects that
 carry it. A thrown std::runtime_error is an Err result.
 */
module Serde {
  import opened Basics
  import opened Crc32

  datatype Error =
    | UnexpectedEnd | SizeMismatch | StringTooLong | BlobTooLong | VectorTooLong
    | BadMagic | TooManyItems | TypeMismatch | UnsupportedVersion | BadHeaderSize
    | ChecksumMismatch | SketchTooLarge | SpanTooLong | ShardCountMismatch | BadConfig | OutOfMemory

  datatype Result<+T> = Ok(value: T) | Err(error: Error) {
    predicate IsFailure() { Err? }
    function PropagateFailure<U>(): Result<U>
      requires Err?
    {
      Err(error)
    }
    function Extract(): T
      requires Ok?
    {
      value
    }
  }

  type Bytes = seq<Byte>

  // ------------------------------------------------------------------
  // Integers
  // ------------------------------------------------------------------

  function Pow256(w: nat): (r: nat)
    ensures r > 0
  {
    if w == 0 then 1 else 256 * Pow256(w - 1)
  }

  /** The low `w` bytes of `n`, lowest first: what writing a w-byte integer appends. */
  function LittleEndian(n: nat, w: nat): (r: Bytes)
    ensures |r| == w
    decreases w
  {
    if w == 0 then [] else [n % 256] + LittleEndian(n / 256, w - 1)
  }

  function ValueOf(s: Bytes): nat {
    if s == [] then 0 else s[0] + 256 * ValueOf(s[1..])
  }

  lemma {:induction false} ValueOfLittleEndian(n: nat, w: nat)
    requires n < Pow256(w)
    ensures ValueOf(LittleEndian(n, w)) == n
    decreases w
  {
    if w != 0 {
      ValueOfLittleEndian(n / 256, w - 1);
      assert LittleEndian(n, w)[1..] == LittleEndian(n / 256, w - 1);
    }
  }

  lemma {:induction false} ValueOfBound(s: Bytes)
    ensures ValueOf(s) < Pow256(|s|)
  {
    if s != [] { ValueOfBound(s[1..]); }
  }

  /** binary_reader::read of a w-byte integer. */
  function ReadInt(s: Bytes, w: nat): Result<(nat, Bytes)> {
    if |s| < w then Err(UnexpectedEnd) else Ok((ValueOf(s[..w]), s[w..]))
  }

  function ReadRaw(s: Bytes, n: nat): Result<(Bytes, Bytes)> {
    if |s| < n then Err(UnexpectedEnd) else Ok((s[..n], s[n..]))
  }

  lemma ReadIntBack(n: nat, w: nat, rest: Bytes)
    requires n < Pow256(w)
    ensures ReadInt(LittleEndian(n, w) + rest, w) == Ok((n, rest))
  {
    var s := LittleEndian(n, w) + rest;
    assert s[..w] == LittleEndian(n, w) && s[w..] == rest;
    ValueOfLittleEndian(n, w);
  }

  lemma ReadRawBack(b: Bytes, rest: Bytes)
    ensures ReadRaw(b + rest, |b|) == Ok((b, rest))
  {
    assert (b + rest)[..|b|] == b && (b + rest)[|b|..] == rest;
  }

  // ------------------------------------------------------------------
  // Types and values
  // ------------------------------------------------------------------

  const MAX_STRING: nat := 1_000_000
  const MAX_BLOB: nat := 100_000_000
  const MAX_VECTOR: nat := 10_000_000

  /** A serializable type: Fixed is any trivially copyable type, Blob is vector<uint8_t>. */
  datatype Ty = Fixed(size: nat) | Str | Blob | PairOf(fst: Ty, snd: Ty) | VecOf(elem: Ty) | OptOf(some: Ty)

  datatype Val =
    | FixedV(bytes: Bytes) | StrV(bytes: Bytes) | BlobV(bytes: Bytes)
    | PairV(fst: Val, snd: Val) | VecV(elems: seq<Val>) | NoneV | SomeV(inner: Val)

  ghost predicate HasType(v: Val, t: Ty) {
    match t
    case Fixed(n) => v.FixedV? && |v.bytes| == n
    case Str => v.StrV?
    case Blob => v.BlobV?
    case PairOf(a, b) => v.PairV? && HasType(v.fst, a) && HasType(v.snd, b)
    case VecOf(e) => v.VecV? && AllHaveType(v.elems, e)
    case OptOf(e) => v.NoneV? || (v.SomeV? && HasType(v.inner, e))
  }

  ghost predicate AllHaveType(vs: seq<Val>, t: Ty) {
    forall i :: 0 <= i < |vs| ==> HasType(vs[i], t)
  }

  /** The sizes the decoder is willing to read. */
  ghost predicate WithinLimits(v: Val) {
    match v
    case FixedV(b) => |b| < U32
    case StrV(b) => |b| <= MAX_STRING
    case BlobV(b) => |b| <= MAX_BLOB
    case PairV(x, y) => WithinLimits(x) && WithinLimits(y)
    case VecV(vs) => |vs| <= MAX_VECTOR && forall i :: 0 <= i < |vs| ==> WithinLimits(vs[i])
    case NoneV => true
    case SomeV(x) => WithinLimits(x)
  }

  /** serde_write: the bytes appended for a value. Lengths are cast to 32 bits. */
  function Encode(v: Val): Bytes
    decreases v, 0
  {
    match v
    case FixedV(b) => LittleEndian(|b|, 4) + b
    case StrV(b) => LittleEndian(|b|, 4) + b
    case BlobV(b) => LittleEndian(|b|, 4) + b
    case PairV(x, y) => Encode(x) + Encode(y)
    case VecV(vs) => LittleEndian(|vs|, 4) + EncodeAll(vs)
    case NoneV => [0]
    case SomeV(x) => [1] + Encode(x)
  }

  function EncodeAll(vs: seq<Val>): Bytes
    decreases vs
  {
    if vs == [] then [] else EncodeAll(vs[..|vs| - 1]) + Encode(vs[|vs| - 1])
  }

  /** A length-prefixed run of bytes, no longer than `limit`. */
  function DecodeRaw(s: Bytes, limit: nat, e: Error): Result<(Bytes, Bytes)> {
    var (n, s1) :- ReadInt(s, 4);
    if n > limit then Err(e) else ReadRaw(s1, n)
  }

  /** serde_read: the value at the front of `s`, and what follows it. */
  function Decode(t: Ty, s: Bytes): Result<(Val, Bytes)>
    decreases t, 0
  {
    match t
    case Fixed(size) =>
      var (n, s1) :- ReadInt(s, 4);
      if n != size then Err(SizeMismatch) else
      var (b, s2) :- ReadRaw(s1, size);
      Ok((FixedV(b), s2))
    case Str =>
      var (b, s1) :- DecodeRaw(s, MAX_STRING, StringTooLong);
      Ok((StrV(b), s1))
    case Blob =>
      var (b, s1) :- DecodeRaw(s, MAX_BLOB, BlobTooLong);
      Ok((BlobV(b), s1))
    case PairOf(a, b) =>
      var (x, s1) :- Decode(a, s);
      var (y, s2) :- Decode(b, s1);
      Ok((PairV(x, y), s2))
    case VecOf(e) =>
      var (n, s1) :- ReadInt(s, 4);
      if n > MAX_VECTOR then Err(VectorTooLong) else
      var (vs, s2) :- DecodeAll(e, n, s1);
      Ok((VecV(vs), s2))
    case OptOf(e) =>
      var (has, s1) :- ReadInt(s, 1);
      if has == 0 then Ok((NoneV, s1)) else
      var (x, s2) :- Decode(e, s1);
      Ok((SomeV(x), s2))
  }

  function DecodeAll(t: Ty, n: nat, s: Bytes): Result<(seq<Val>, Bytes)>
    decreases t, 1, n
  {
    if n == 0 then Ok(([], s)) else
    var (vs, s1) :- DecodeAll(t, n - 1, s);
    var (v, s2) :- Decode(t, s1);
    Ok((vs + [v], s2))
  }

  lemma Pow256Four()
    ensures Pow256(1) == 256 && Pow256(4) == U32
  {
    assert Pow256(2) == 65536;
  }

  lemma PrefixBack(n: nat, b: Bytes, rest: Bytes)
    requires n < U32
    ensures ReadInt((LittleEndian(n, 4) + b) + rest, 4) == Ok((n, b + rest))
  {
    Pow256Four();
    assert (LittleEndian(n, 4) + b) + rest == LittleEndian(n, 4) + (b + rest);
    ReadIntBack(n, 4, b + rest);
  }

  lemma RawBack(b: Bytes, rest: Bytes, limit: nat, e: Error)
    requires |b| <= limit < U32
    ensures DecodeRaw((LittleEndian(|b|, 4) + b) + rest, limit, e) == Ok((b, rest))
  {
    PrefixBack(|b|, b, rest);
    ReadRawBack(b, rest);
  }

  lemma TagBack(tag: Byte, rest: Bytes)
    ensures ReadInt([tag] + rest, 1) == Ok((tag, rest))
  {
    assert ([tag] + rest)[..1] == [tag] && ([tag] + rest)[1..] == rest;
    assert ValueOf([tag]) == tag;
  }

  /** Decoding what was encoded gives the value back and leaves the rest. */
  lemma {:induction false} DecodeEncode(t: Ty, v: Val, rest: Bytes)
    requires HasType(v, t) && WithinLimits(v)
    ensures Decode(t, Encode(v) + rest) == Ok((v, rest))
    decreases t, 0
  {
    match t {
      case Fixed(n) =>
        PrefixBack(n, v.bytes, rest);
        ReadRawBack(v.bytes, rest);
      case Str => RawBack(v.bytes, rest, MAX_STRING, StringTooLong);
      case Blob => RawBack(v.bytes, rest, MAX_BLOB, BlobTooLong);
      case PairOf(a, b) =>
        assert Encode(v) + rest == Encode(v.fst) + (Encode(v.snd) + rest);
        DecodeEncode(a, v.fst, Encode(v.snd) + rest);
        DecodeEncode(b, v.snd, rest);
      case VecOf(e) =>
        PrefixBack(|v.elems|, EncodeAll(v.elems), rest);
        DecodeEncodeAll(e, v.elems, rest);
      case OptOf(e) =>
        if v.SomeV? {
          assert Encode(v) + rest == [1] + (Encode(v.inner) + rest);
          TagBack(1, Encode(v.inner) + rest);
          DecodeEncode(e, v.inner, rest);
        } else {
          TagBack(0, rest);
        }
    }
  }

  lemma DecodeOneMore(t: Ty, front: seq<Val>, last: Val, a: Bytes, b: Bytes, rest: Bytes)
    requires DecodeAll(t, |front|, a + (b + rest)) == Ok((front, b + rest)) && Decode(t, b + rest) == Ok((last, rest))
    ensures DecodeAll(t, |front| + 1, (a + b) + rest) == Ok((front + [last], rest))
  {
    assert (a + b) + rest == a + (b + rest);
  }

  ghost predicate Decodable(vs: seq<Val>, t: Ty) {
    AllHaveType(vs, t) && forall i :: 0 <= i < |vs| ==> WithinLimits(vs[i])
  }

  lemma {:induction false} DecodeEncodeAll(t: Ty, vs: seq<Val>, rest: Bytes)
    requires Decodable(vs, t)
    ensures DecodeAll(t, |vs|, EncodeAll(vs) + rest) == Ok((vs, rest))
    decreases t, 1, |vs|
  {
    if vs == [] {
      assert EncodeAll(vs) + rest == rest;
    } else {
      var front, last := vs[..|vs| - 1], vs[|vs| - 1];
      assert vs == front + [last] && Decodable(front, t);
      DecodeEncode(t, last, rest);
      DecodeEncodeAll(t, front, Encode(last) + rest);
      DecodeOneMore(t, front, last, EncodeAll(front), Encode(last), rest);
    }
  }

  /** Whatever is decoded is well typed and within the limits. */
  lemma {:induction false} DecodeSound(t: Ty, s: Bytes)
    ensures Decode(t, s).Ok? ==> HasType(Decode(t, s).value.0, t) && WithinLimits(Decode(t, s).value.0)
    decreases t, 0
  {
    match t {
      case Fixed(n) => if |s| >= 4 { ValueOfBound(s[..4]); Pow256Four(); }
      case Str =>
      case Blob =>
      case PairOf(a, b) =>
        DecodeSound(a, s);
        if Decode(a, s).Ok? { DecodeSound(b, Decode(a, s).value.1); }
      case VecOf(e) =>
        if |s| >= 4 { DecodeAllSound(e, ValueOf(s[..4]), s[4..]); }
      case OptOf(e) => if |s| >= 1 { DecodeSound(e, s[1..]); }
    }
  }

  lemma {:induction false} DecodeAllSound(t: Ty, n: nat, s: Bytes)
    ensures DecodeAll(t, n, s).Ok? ==>
              var vs := DecodeAll(t, n, s).value.0;
              |vs| == n && AllHaveType(vs, t) && forall i :: 0 <= i < n ==> WithinLimits(vs[i])
    decreases t, 1, n
  {
    if n != 0 {
      DecodeAllSound(t, n - 1, s);
      if DecodeAll(t, n - 1, s).Ok? { DecodeSound(t, DecodeAll(t, n - 1, s).value.1); }
    }
  }

  /** The codec returns a value exactly when it is within the decoder's limits. */
  lemma RoundTrip(t: Ty, v: Val, rest: Bytes)
    requires HasType(v, t)
    ensures Decode(t, Encode(v) + rest) == Ok((v, rest)) <==> WithinLimits(v)
  {
    if WithinLimits(v) { DecodeEncode(t, v, rest); }
    DecodeSound(t, Encode(v) + rest);
  }

  // ------------------------------------------------------------------
  // The writer and reader objects
  // ------------------------------------------------------------------

  class BinaryWriter {
    var buffer: Bytes

    constructor ()
      ensures buffer == []
    {
      buffer := [];
    }

    method WriteBytes(b: Bytes)
      modifies this
      ensures buffer == old(buffer) + b
    {
      buffer := buffer + b;
    }

    method WriteInt(n: nat, w: nat)
      modifies this
      ensures buffer == old(buffer) + LittleEndian(n, w)
    {
      WriteBytes(LittleEndian(n, w));
    }

    /** Overwrites bytes already written; fails, changing nothing, outside the buffer. */
    method PatchAt(offset: nat, b: Bytes) returns (ok: bool)
      modifies this
      ensures ok <==> offset + |b| <= |old(buffer)|
      ensures ok ==> buffer == old(buffer)[..offset] + b + old(buffer)[offset + |b|..]
      ensures !ok ==> buffer == old(buffer)
    {
      ok := offset + |b| <= |buffer|;
      if ok { buffer := buffer[..offset] + b + buffer[offset + |b|..]; }
    }
  }

  /** `res` and `rest` are what a reader must deliver when the specification says `spec`. */
  ghost predicate Delivers<T(!new)>(spec: Result<(T, Bytes)>, res: Result<T>, rest: Bytes) {
    match spec
    case Ok((v, s)) => res == Ok(v) && rest == s
    case Err(e) => res == Err(e)
  }

  class BinaryReader {
    const data: Bytes
    var pos: nat

    ghost predicate Valid()
      reads this
    {
      pos <= |data|
    }

    ghost function Remaining(): Bytes
      requires Valid()
      reads this
    {
      data[pos..]
    }

    constructor (bytes: Bytes)
      ensures Valid() && data == bytes && Remaining() == bytes
    {
      data := bytes;
      pos := 0;
    }

    method ReadBytes(n: nat) returns (r: Result<Bytes>)
      requires Valid()
      modifies this
      ensures Valid() && Delivers(ReadRaw(old(Remaining()), n), r, Remaining())
    {
      if pos + n > |data| { return Err(UnexpectedEnd); }
      r := Ok(data[pos..pos + n]);
      pos := pos + n;
      assert old(Remaining())[..n] == data[old(pos)..old(pos) + n];
    }

    method Read(w: nat) returns (r: Result<nat>)
      requires Valid()
      modifies this
      ensures Valid() && Delivers(ReadInt(old(Remaining()), w), r, Remaining())
    {
      var b := ReadBytes(w);
      match b {
        case Ok(bytes) => r := Ok(ValueOf(bytes));
        case Err(e) => r := Err(e);
      }
    }
  }

  lemma Assoc(a: Bytes, b: Bytes, c: Bytes)
    ensures (a + b) + c == a + (b + c)
  {
  }

  lemma EncodeOneMore(vs: seq<Val>, i: nat)
    requires i < |vs|
    ensures EncodeAll(vs[..i + 1]) == EncodeAll(vs[..i]) + Encode(vs[i])
  {
    assert vs[..i + 1][..i] == vs[..i];
  }

  /** serde_write on a writer. */
  method SerdeWrite(w: BinaryWriter, v: Val)
    modifies w
    ensures w.buffer == old(w.buffer) + Encode(v)
    decreases v, 0
  {
    match v {
      case PairV(x, y) =>
        SerdeWrite(w, x);
        SerdeWrite(w, y);
        Assoc(old(w.buffer), Encode(x), Encode(y));
      case VecV(vs) =>
        w.WriteInt(|vs|, 4);
        WriteElements(w, vs);
        Assoc(old(w.buffer), LittleEndian(|vs|, 4), EncodeAll(vs));
      case NoneV => w.WriteBytes([0]);
      case SomeV(x) =>
        w.WriteBytes([1]);
        SerdeWrite(w, x);
        Assoc(old(w.buffer), [1], Encode(x));
      case _ => WritePrefixed(w, v.bytes);
    }
  }

  method WritePrefixed(w: BinaryWriter, b: Bytes)
    modifies w
    ensures w.buffer == old(w.buffer) + (LittleEndian(|b|, 4) + b)
  {
    w.WriteInt(|b|, 4);
    w.WriteBytes(b);
    Assoc(old(w.buffer), LittleEndian(|b|, 4), b);
  }

  method WriteElements(w: BinaryWriter, vs: seq<Val>)
    modifies w
    ensures w.buffer == old(w.buffer) + EncodeAll(vs)
    decreases vs
  {
    for i := 0 to |vs|
      invariant w.buffer == old(w.buffer) + EncodeAll(vs[..i])
    {
      SerdeWrite(w, vs[i]);
      EncodeOneMore(vs, i);
      Assoc(old(w.buffer), EncodeAll(vs[..i]), Encode(vs[i]));
    }
    assert vs[..|vs|] == vs;
  }

  lemma {:induction false} DecodeAllFails(t: Ty, i: nat, n: nat, s: Bytes)
    requires i < n && DecodeAll(t, i + 1, s).Err?
    ensures DecodeAll(t, n, s) == Err(DecodeAll(t, i + 1, s).error)
    decreases n
  {
    if i + 1 < n { DecodeAllFails(t, i, n - 1, s); }
  }

  /** A length-prefixed run of bytes from a reader. */
  method ReadPrefixed(r: BinaryReader, limit: nat, e: Error) returns (res: Result<Bytes>)
    requires r.Valid()
    modifies r
    ensures r.Valid() && Delivers(DecodeRaw(old(r.Remaining()), limit, e), res, r.Remaining())
  {
    var n := r.Read(4);
    if n.Err? { return Err(n.error); }
    if n.value > limit { return Err(e); }
    res := r.ReadBytes(n.value);
  }

  /** serde_read on a reader. */
  method SerdeRead(r: BinaryReader, t: Ty) returns (res: Result<Val>)
    requires r.Valid()
    modifies r
    ensures r.Valid() && Delivers(Decode(t, old(r.Remaining())), res, r.Remaining())
    decreases t, 0
  {
    match t {
      case Fixed(size) =>
        var n := r.Read(4);
        if n.Err? { return Err(n.error); }
        if n.value != size { return Err(SizeMismatch); }
        var b := r.ReadBytes(size);
        if b.Err? { return Err(b.error); }
        return Ok(FixedV(b.value));
      case Str =>
        var b := ReadPrefixed(r, MAX_STRING, StringTooLong);
        if b.Err? { return Err(b.error); }
        return Ok(StrV(b.value));
      case Blob =>
        var b := ReadPrefixed(r, MAX_BLOB, BlobTooLong);
        if b.Err? { return Err(b.error); }
        return Ok(BlobV(b.value));
      case PairOf(a, b) =>
        var x := SerdeRead(r, a);
        if x.Err? { return x; }
        var y := SerdeRead(r, b);
        if y.Err? { return y; }
        return Ok(PairV(x.value, y.value));
      case VecOf(e) =>
        var n := r.Read(4);
        if n.Err? { return Err(n.error); }
        if n.value > MAX_VECTOR { return Err(VectorTooLong); }
        var vs := ReadElements(r, e, n.value);
        if vs.Err? { return Err(vs.error); }
        return Ok(VecV(vs.value));
      case OptOf(e) =>
        var has := r.Read(1);
        if has.Err? { return Err(has.error); }
        if has.value == 0 { return Ok(NoneV); }
        var x := SerdeRead(r, e);
        if x.Err? { return x; }
        return Ok(SomeV(x.value));
    }
  }

  method ReadElements(r: BinaryReader, t: Ty, n: nat) returns (res: Result<seq<Val>>)
    requires r.Valid()
    modifies r
    ensures r.Valid() && Delivers(DecodeAll(t, n, old(r.Remaining())), res, r.Remaining())
    decreases t, 1
  {
    ghost var s := r.Remaining();
    var vs := [];
    for i := 0 to n
      invariant r.Valid() && DecodeAll(t, i, s) == Ok((vs, r.Remaining()))
    {
      var v := SerdeRead(r, t);
      if v.Err? {
        DecodeAllFails(t, i, n, s);
        return Err(v.error);
      }
      vs := vs + [v.value];
    }
    return Ok(vs);
  }
}
