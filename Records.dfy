/** zigpy's Struct codec as the NVRAM datasets and the simple descriptor
    use it: a struct is a list of typed fields, serialised one after the
    other; records of one struct type are read and written in runs. */
module Records {
  import opened Wrappers
  import opened Basic

  // ----------------------------------------------------------------- fields

  /** The type of one struct field: an integer type, which has a `_size`, or
      a fixed block of bytes, which has a `_length` (EUI64, KeyData). */
  datatype FieldType = IntField(kind: IntKind) | BlockField(length: nat)

  /** The value held by one field. */
  datatype FieldValue = IntVal(i: int) | BlockVal(b: Bytes)

  const EUI64: FieldType := BlockField(8)
  const KeyData: FieldType := BlockField(16)
  const NWK: FieldType := IntField(UInt16)

  /** `_size` of an integer type, `_length` of a block. */
  function FieldSize(f: FieldType): nat {
    match f
    case IntField(k) => k.size
    case BlockField(n) => n
  }

  /** The value is one the field's type can serialise. */
  predicate Fits(f: FieldType, v: FieldValue) {
    match f
    case IntField(k) => v.IntVal? && InRange(k, v.i)
    case BlockField(n) => v.BlockVal? && |v.b| == n
  }

  function EncodeField(f: FieldType, v: FieldValue): (r: Result<Bytes>)
    ensures r.Ok? <==> Fits(f, v)
    ensures r.Ok? ==> |r.value| == FieldSize(f)
  {
    match f
    case IntField(k) => if v.IntVal? then EncodeInt(k, v.i) else Err(ValueError)
    case BlockField(n) => if v.BlockVal? && |v.b| == n then Ok(v.b) else Err(ValueError)
  }

  function DecodeField(f: FieldType, data: Bytes): (r: Result<(FieldValue, Bytes)>)
    ensures r.Err? <==> |data| < FieldSize(f)
    ensures r.Ok? ==> Fits(f, r.value.0) && r.value.1 == data[FieldSize(f)..]
  {
    match f
    case IntField(k) =>
      var (i, rest) :- DecodeInt(k, data);
      Ok((IntVal(i), rest))
    case BlockField(n) =>
      if |data| < n then Err(ValueError) else Ok((BlockVal(data[..n]), data[n..]))
  }

  lemma FieldRoundTrip(f: FieldType, v: FieldValue, rest: Bytes)
    requires Fits(f, v)
    ensures DecodeField(f, EncodeField(f, v).value + rest) == Ok((v, rest))
  {
    var b := EncodeField(f, v).value;
    match f
    case IntField(k) =>
      IntRoundTrip(k, v.i, rest);
    case BlockField(n) =>
      assert (b + rest)[..n] == b && (b + rest)[n..] == rest;
  }

  lemma FieldDecodeThenEncode(f: FieldType, data: Bytes)
    requires |data| >= FieldSize(f)
    ensures EncodeField(f, DecodeField(f, data).value.0) == Ok(data[..FieldSize(f)])
  {
    match f
    case IntField(k) =>
      DecodeThenEncode(k, data);
    case BlockField(n) =>
  }

  // --------------------------------------------------------------- structs

  /** A struct value: one field value per field, in declaration order. */
  type Struct = seq<FieldValue>

  /** The sum `get_byte_size` computes over a struct's fields. */
  function ByteSize(fields: seq<FieldType>): nat {
    if |fields| == 0 then 0 else FieldSize(fields[0]) + ByteSize(fields[1..])
  }

  /** The size of a concatenation of field lists is the sum of their sizes. */
  lemma {:induction false} ByteSizeAppend(a: seq<FieldType>, b: seq<FieldType>)
    ensures ByteSize(a + b) == ByteSize(a) + ByteSize(b)
    decreases |a|
  {
    if |a| > 0 {
      ByteSizeAppend(a[1..], b);
      assert (a + b)[1..] == a[1..] + b;
    } else {
      assert a + b == b;
    }
  }

  /** Struct.serialize: each field serialised in order; a struct whose value
      list does not match its fields cannot be serialised. */
  function EncodeStruct(fields: seq<FieldType>, s: Struct): (r: Result<Bytes>)
    ensures r.Ok? ==> |r.value| == ByteSize(fields)
  {
    if |fields| == 0 then (if |s| == 0 then Ok([]) else Err(ValueError))
    else if |s| == 0 then Err(ValueError)
    else
      var head :- EncodeField(fields[0], s[0]);
      var tail :- EncodeStruct(fields[1..], s[1..]);
      Ok(head + tail)
  }

  /** Struct.deserialize: each field read in order, threading the data. */
  function DecodeStruct(fields: seq<FieldType>, data: Bytes): (r: Result<(Struct, Bytes)>)
    ensures r.Ok? ==> |r.value.0| == |fields|
  {
    if |fields| == 0 then Ok(([], data))
    else
      var (v, data') :- DecodeField(fields[0], data);
      var (vs, rest) :- DecodeStruct(fields[1..], data');
      Ok(([v] + vs, rest))
  }

  /** Every field of the struct fits its type. */
  predicate AllFit(fields: seq<FieldType>, s: Struct) {
    |s| == |fields| && forall i :: 0 <= i < |fields| ==> Fits(fields[i], s[i])
  }

  /** A struct serialises exactly when each value fits its field. */
  lemma {:induction false} StructEncodes(fields: seq<FieldType>, s: Struct)
    ensures EncodeStruct(fields, s).Ok? <==> AllFit(fields, s)
    decreases |fields|
  {
    if |fields| > 0 && |s| > 0 {
      StructEncodes(fields[1..], s[1..]);
      if AllFit(fields, s) {
        assert AllFit(fields[1..], s[1..]) by {
          forall i | 0 <= i < |fields| - 1
            ensures Fits(fields[1..][i], s[1..][i])
          {
            assert Fits(fields[i + 1], s[i + 1]);
          }
        }
      }
      if EncodeStruct(fields, s).Ok? {
        forall i | 0 <= i < |fields|
          ensures Fits(fields[i], s[i])
        {
          if i > 0 {
            assert Fits(fields[1..][i - 1], s[1..][i - 1]);
          }
        }
      }
    }
  }

  /** A struct is read exactly when enough bytes are there; it takes
      `ByteSize` bytes and every value it reads fits its field. */
  lemma {:induction false} StructDecodes(fields: seq<FieldType>, data: Bytes)
    ensures DecodeStruct(fields, data).Ok? <==> |data| >= ByteSize(fields)
    ensures DecodeStruct(fields, data).Ok? ==>
      var (s, rest) := DecodeStruct(fields, data).value;
      rest == data[ByteSize(fields)..] && AllFit(fields, s)
    decreases |fields|
  {
    if |fields| > 0 && |data| >= FieldSize(fields[0]) {
      var (v, data') := DecodeField(fields[0], data).value;
      StructDecodes(fields[1..], data');
      if DecodeStruct(fields, data).Ok? {
        var s := DecodeStruct(fields, data).value.0;
        assert s[1..] == DecodeStruct(fields[1..], data').value.0;
        forall i | 0 <= i < |fields|
          ensures Fits(fields[i], s[i])
        {
          if i > 0 {
            assert Fits(fields[1..][i - 1], s[1..][i - 1]);
          }
        }
      }
    }
  }

  /** Reading back a serialised struct gives it, and what follows, back. */
  lemma {:induction false} StructRoundTrip(fields: seq<FieldType>, s: Struct, rest: Bytes)
    requires EncodeStruct(fields, s).Ok?
    ensures DecodeStruct(fields, EncodeStruct(fields, s).value + rest) == Ok((s, rest))
    decreases |fields|
  {
    if |fields| > 0 {
      var head := EncodeField(fields[0], s[0]).value;
      var tail := EncodeStruct(fields[1..], s[1..]).value;
      FieldRoundTrip(fields[0], s[0], tail + rest);
      assert head + tail + rest == head + (tail + rest);
      StructRoundTrip(fields[1..], s[1..], rest);
      assert [s[0]] + s[1..] == s;
    } else {
      assert [] + rest == rest;
    }
  }

  /** A struct read from bytes serialises back to the very bytes it took. */
  lemma {:induction false} StructDecodeThenEncode(fields: seq<FieldType>, data: Bytes)
    requires |data| >= ByteSize(fields)
    ensures DecodeStruct(fields, data).Ok?
    ensures EncodeStruct(fields, DecodeStruct(fields, data).value.0) == Ok(data[..ByteSize(fields)])
    decreases |fields|
  {
    StructDecodes(fields, data);
    if |fields| > 0 {
      var n := FieldSize(fields[0]);
      var data' := data[n..];
      FieldDecodeThenEncode(fields[0], data);
      StructDecodeThenEncode(fields[1..], data');
      var s := DecodeStruct(fields, data).value.0;
      assert s[0] == DecodeField(fields[0], data).value.0;
      assert s[1..] == DecodeStruct(fields[1..], data').value.0;
      assert data[..n] + data'[..ByteSize(fields[1..])] == data[..ByteSize(fields)];
    }
  }

  /** A struct type as the item codec of a list dataset. */
  function StructSer(fields: seq<FieldType>): Struct -> Result<Bytes> {
    s => EncodeStruct(fields, s)
  }

  function StructDe(fields: seq<FieldType>): Bytes -> Result<(Struct, Bytes)> {
    d => DecodeStruct(fields, d)
  }

  lemma StructCodec(fields: seq<FieldType>)
    ensures ItemRoundTrips(StructSer(fields), StructDe(fields))
  {
    forall s, rest | StructSer(fields)(s).Ok?
      ensures StructDe(fields)(StructSer(fields)(s).value + rest) == Ok((s, rest))
    {
      StructRoundTrip(fields, s, rest);
    }
  }

  lemma MulStep(n: nat, b: nat)
    requires n > 0
    ensures n * b == b + (n - 1) * b && (n - 1) * b >= 0
  {
  }

  /** `n` records of a struct type are read exactly when `n` times its size
      is there, and they take exactly that many bytes. */
  lemma {:induction false} RecordsDecode(fields: seq<FieldType>, data: Bytes, n: nat)
    ensures DecodeItems(StructDe(fields), data, n).Ok? <==> |data| >= n * ByteSize(fields)
    ensures DecodeItems(StructDe(fields), data, n).Ok? ==>
      DecodeItems(StructDe(fields), data, n).value.1 == data[n * ByteSize(fields)..]
    decreases n
  {
    if n > 0 {
      var b := ByteSize(fields);
      StructDecodes(fields, data);
      assert StructDe(fields)(data) == DecodeStruct(fields, data);
      MulStep(n, b);
      if |data| >= b {
        var data' := data[b..];
        RecordsDecode(fields, data', n - 1);
        if |data'| >= (n - 1) * b {
          assert data'[(n - 1) * b..] == data[n * b..];
        }
      }
    }
  }

  /** Serialised records take `ByteSize` bytes each. */
  lemma {:induction false} RecordsLength(fields: seq<FieldType>, xs: seq<Struct>)
    requires EncodeItems(StructSer(fields), xs).Ok?
    ensures |EncodeItems(StructSer(fields), xs).value| == |xs| * ByteSize(fields)
    decreases |xs|
  {
    if |xs| > 0 {
      RecordsLength(fields, xs[1..]);
      var b := ByteSize(fields);
      var head := EncodeStruct(fields, xs[0]).value;
      assert StructSer(fields)(xs[0]) == EncodeStruct(fields, xs[0]);
      assert |head| == b;
      MulStep(|xs|, b);
    }
  }

  /** Records read from bytes serialise back to the bytes they took. */
  lemma {:induction false} RecordsDecodeThenEncode(fields: seq<FieldType>, data: Bytes, n: nat)
    requires |data| >= n * ByteSize(fields)
    ensures DecodeItems(StructDe(fields), data, n).Ok?
    ensures EncodeItems(StructSer(fields), DecodeItems(StructDe(fields), data, n).value.0)
         == Ok(data[..n * ByteSize(fields)])
    decreases n
  {
    RecordsDecode(fields, data, n);
    if n > 0 {
      var b := ByteSize(fields);
      MulStep(n, b);
      RecordHead(fields, data);
      var (x, data') := StructDe(fields)(data).value;
      RecordsDecodeThenEncode(fields, data', n - 1);
      var ys := DecodeItems(StructDe(fields), data', n - 1).value.0;
      var xs := DecodeItems(StructDe(fields), data, n).value.0;
      assert xs == [x] + ys;
      assert xs[1..] == ys;
      assert data[..b] + data'[..(n - 1) * b] == data[..n * b];
    }
  }

  /** The first record read from the bytes serialises back to the bytes it
      took. */
  lemma RecordHead(fields: seq<FieldType>, data: Bytes)
    requires |data| >= ByteSize(fields)
    ensures StructDe(fields)(data).Ok? && StructDe(fields)(data).value.1 == data[ByteSize(fields)..]
    ensures StructSer(fields)(StructDe(fields)(data).value.0) == Ok(data[..ByteSize(fields)])
  {
    StructDecodeThenEncode(fields, data);
    StructDecodes(fields, data);
  }

  lemma ByteSizeCons(f: FieldType, fs: seq<FieldType>)
    ensures ByteSize([f] + fs) == FieldSize(f) + ByteSize(fs)
  {
    assert ([f] + fs)[1..] == fs;
  }

  /** The sizes of a one- to three-field list. */
  lemma ByteSizeSmall(a: FieldType, b: FieldType, c: FieldType)
    ensures ByteSize([c]) == FieldSize(c)
    ensures ByteSize([b, c]) == FieldSize(b) + FieldSize(c)
    ensures ByteSize([a, b, c]) == FieldSize(a) + FieldSize(b) + FieldSize(c)
  {
    ByteSizeCons(c, []);
    assert [c] + [] == [c];
    ByteSizeCons(b, [c]);
    assert [b] + [c] == [b, c];
    ByteSizeCons(a, [b, c]);
    assert [a] + [b, c] == [a, b, c];
  }

  /** The non-negative integer a decoded count field holds. */
  function Count(v: FieldValue): nat {
    if v.IntVal? && v.i >= 0 then v.i else 0
  }

  /** The first field of a struct that starts with a u8 is the first byte. */
  lemma LeadingByte(fields: seq<FieldType>, data: Bytes)
    requires |fields| > 0 && fields[0] == IntField(UInt8)
    requires DecodeStruct(fields, data).Ok?
    ensures |data| >= 1 && DecodeStruct(fields, data).value.0[0] == IntVal(data[0])
  {
    DecodeByte(data);
  }

  /** Records of a struct type read back from their serialisation. */
  lemma RecordsRoundTrip(fields: seq<FieldType>, xs: seq<Struct>, rest: Bytes)
    requires EncodeItems(StructSer(fields), xs).Ok?
    ensures DecodeItems(StructDe(fields), EncodeItems(StructSer(fields), xs).value + rest, |xs|) == Ok((xs, rest))
  {
    StructCodec(fields);
    ItemsRoundTrip(StructSer(fields), StructDe(fields), xs, rest);
  }
}
