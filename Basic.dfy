/** Wire codecs for the basic types of zigpy_zboss/types/basic.py:
    little-endian fixed-width integers, raw bytes, length-prefixed bytes and
    the three list flavours (length-prefixed, fixed-length, complete). */
module Basic {
  import opened Wrappers

  type byte = x: int | 0 <= x < 256
  type Bytes = seq<byte>

  /** Byte widths of the sized FixedIntType subclasses (int8s .. uint64_t). */
  type Width = n: nat | 1 <= n <= 8 witness 1

  /** A FixedIntType subclass: its `_size` in bytes and `_signed`. */
  datatype IntKind = IntKind(size: Width, signed: bool)

  const UInt8: IntKind := IntKind(1, false)
  const UInt16: IntKind := IntKind(2, false)
  const UInt24: IntKind := IntKind(3, false)
  const UInt32: IntKind := IntKind(4, false)
  const UInt56: IntKind := IntKind(7, false)
  const Int8s: IntKind := IntKind(1, true)

  function Pow256(n: nat): (r: nat)
    ensures r >= 1
  {
    if n == 0 then 1 else 256 * Pow256(n - 1)
  }

  /** The values `to_bytes(size, signed=...)` accepts without OverflowError. */
  predicate InRange(k: IntKind, v: int) {
    if k.signed then -(Pow256(k.size) / 2) <= v < Pow256(k.size) / 2
    else 0 <= v < Pow256(k.size)
  }

  /** The `n` low-order base-256 digits of `u`, least significant first. */
  function LittleEndian(u: nat, n: nat): (r: Bytes)
    ensures |r| == n
  {
    if n == 0 then [] else [u % 256] + LittleEndian(u / 256, n - 1)
  }

  /** The number whose little-endian digits are `b`. */
  function FromLittleEndian(b: Bytes): (r: nat)
    ensures r < Pow256(|b|)
  {
    if |b| == 0 then 0 else b[0] + 256 * FromLittleEndian(b[1..])
  }

  lemma {:induction false} FromLittleEndianOfLittleEndian(u: nat, n: nat)
    requires u < Pow256(n)
    ensures FromLittleEndian(LittleEndian(u, n)) == u
  {
    if n > 0 {
      assert u / 256 < Pow256(n - 1);
      FromLittleEndianOfLittleEndian(u / 256, n - 1);
      assert LittleEndian(u, n)[1..] == LittleEndian(u / 256, n - 1);
    }
  }

  lemma {:induction false} LittleEndianOfFromLittleEndian(b: Bytes)
    ensures LittleEndian(FromLittleEndian(b), |b|) == b
  {
    if |b| > 0 {
      LittleEndianOfFromLittleEndian(b[1..]);
      var u := FromLittleEndian(b);
      assert u % 256 == b[0] && u / 256 == FromLittleEndian(b[1..]);
    }
  }

  /** Two's complement of `v` in `k.size` bytes (identity for unsigned kinds). */
  function Unsigned(k: IntKind, v: int): int {
    if v < 0 then v + Pow256(k.size) else v
  }

  /** Reading back the two's complement of a raw `k.size`-byte number. */
  function Signed(k: IntKind, u: nat): int {
    if k.signed && u >= Pow256(k.size) / 2 then u - Pow256(k.size) else u
  }

  /** FixedIntType.serialize: exactly `_size` bytes, little-endian, or
      ValueError when the value does not fit. Construction of a FixedIntType
      runs this same check (basic.py:38-46), so it stands for both. */
  function EncodeInt(k: IntKind, v: int): (r: Result<Bytes>)
    ensures r.Ok? <==> InRange(k, v)
    ensures r.Ok? ==> |r.value| == k.size
    ensures r.Ok? && v >= 0 ==> FromLittleEndian(r.value) == v
    ensures r.Ok? && v < 0 ==> FromLittleEndian(r.value) == v + Pow256(k.size)
  {
    if !InRange(k, v) then Err(ValueError)
    else
      FromLittleEndianOfLittleEndian(Unsigned(k, v), k.size);
      Ok(LittleEndian(Unsigned(k, v), k.size))
  }

  /** FixedIntType.deserialize: ValueError on fewer than `_size` bytes,
      otherwise the value and exactly what follows it. */
  function DecodeInt(k: IntKind, data: Bytes): (r: Result<(int, Bytes)>)
    ensures r.Err? <==> |data| < k.size
    ensures r.Ok? ==> r.value.1 == data[k.size..] && InRange(k, r.value.0)
  {
    if |data| < k.size then Err(ValueError)
    else Ok((Signed(k, FromLittleEndian(data[..k.size])), data[k.size..]))
  }

  /** Integer round trip: decoding an encoded value gives it back with the
      following bytes untouched. */
  lemma IntRoundTrip(k: IntKind, v: int, rest: Bytes)
    requires InRange(k, v)
    ensures DecodeInt(k, EncodeInt(k, v).value + rest) == Ok((v, rest))
  {
    var b := EncodeInt(k, v).value;
    assert (b + rest)[..k.size] == b;
    assert (b + rest)[k.size..] == rest;
  }

  /** Encoding is injective on values that fit: a decoded value re-encodes
      to the very bytes it was read from. */
  lemma DecodeThenEncode(k: IntKind, data: Bytes)
    requires |data| >= k.size
    ensures var (v, rest) := DecodeInt(k, data).value;
            EncodeInt(k, v) == Ok(data[..k.size]) && data == data[..k.size] + rest
  {
    var head := data[..k.size];
    LittleEndianOfFromLittleEndian(head);
  }

  // ---------------------------------------------------------------- Bytes

  /** Bytes.serialize is the identity; Bytes.deserialize takes everything. */
  function EncodeBytes(b: Bytes): Bytes { b }

  function DecodeBytes(data: Bytes): (Bytes, Bytes) { (data, []) }

  lemma BytesRoundTrip(b: Bytes)
    ensures DecodeBytes(EncodeBytes(b)) == (b, [])
    ensures EncodeBytes(DecodeBytes(b).0) == b
  {
  }

  // ------------------------------------------------- ShortBytes / LongBytes

  /** ShortBytes (header uint8_t) and LongBytes (header uint16_t): the length
      as a header integer, then the data. A length the header cannot hold
      raises ValueError when the header integer is built. */
  function EncodePrefixed(hdr: IntKind, b: Bytes): (r: Result<Bytes>)
    requires !hdr.signed
    ensures r.Ok? <==> |b| < Pow256(hdr.size)
    ensures r.Ok? ==> r.value == LittleEndian(|b|, hdr.size) + b
  {
    var h :- EncodeInt(hdr, |b|);
    Ok(h + b)
  }

  function DecodePrefixed(hdr: IntKind, data: Bytes): (r: Result<(Bytes, Bytes)>)
    requires !hdr.signed
    ensures r.Ok? <==> |data| >= hdr.size && FromLittleEndian(data[..hdr.size]) <= |data| - hdr.size
    ensures r.Ok? ==> data == LittleEndian(|r.value.0|, hdr.size) + r.value.0 + r.value.1
  {
    var (length, rest) :- DecodeInt(hdr, data);
    if length > |rest| then Err(ValueError)
    else
      LittleEndianOfFromLittleEndian(data[..hdr.size]);
      assert data == data[..hdr.size] + rest[..length] + rest[length..];
      Ok((rest[..length], rest[length..]))
  }

  lemma PrefixedRoundTrip(hdr: IntKind, b: Bytes, rest: Bytes)
    requires !hdr.signed && |b| < Pow256(hdr.size)
    ensures DecodePrefixed(hdr, EncodePrefixed(hdr, b).value + rest) == Ok((b, rest))
  {
    var h := EncodeInt(hdr, |b|).value;
    IntRoundTrip(hdr, |b|, b + rest);
    assert h + b + rest == h + (b + rest);
    assert (b + rest)[..|b|] == b && (b + rest)[|b|..] == rest;
  }

  // ------------------------------------------------------------ item lists

  /** Serialisation of each item, concatenated (the `b"".join(...)` of the
      list serialisers); the first item that cannot be serialised fails. */
  function EncodeItems<T>(ser: T -> Result<Bytes>, xs: seq<T>): (r: Result<Bytes>)
    ensures r.Ok? <==> forall i :: 0 <= i < |xs| ==> ser(xs[i]).Ok?
  {
    if |xs| == 0 then Ok([])
    else
      var head :- ser(xs[0]);
      var tail :- EncodeItems(ser, xs[1..]);
      Ok(head + tail)
  }

  /** Reading exactly `n` items from the front, threading the remaining data
      (the `for i in range(n)` loops of LVList and FixedList). */
  function DecodeItems<T>(de: Bytes -> Result<(T, Bytes)>, data: Bytes, n: nat): (r: Result<(seq<T>, Bytes)>)
    ensures r.Ok? ==> |r.value.0| == n
    decreases n
  {
    if n == 0 then Ok(([], data))
    else
      var (x, data') :- de(data);
      var (xs, rest) :- DecodeItems(de, data', n - 1);
      Ok(([x] + xs, rest))
  }

  /** `items` put in front of the items of a successful read. */
  function Prepend<T>(items: seq<T>, r: Result<(seq<T>, Bytes)>): Result<(seq<T>, Bytes)> {
    match r
    case Ok((xs, rest)) => Ok((items + xs, rest))
    case Err(e) => Err(e)
  }

  lemma PrependEmpty<T>(r: Result<(seq<T>, Bytes)>)
    ensures Prepend([], r) == r
  {
    if r.Ok? {
      assert [] + r.value.0 == r.value.0;
    }
  }

  lemma PrependStep<T>(de: Bytes -> Result<(T, Bytes)>, items: seq<T>, data: Bytes, n: nat)
    requires n > 0 && de(data).Ok?
    ensures Prepend(items, DecodeItems(de, data, n))
         == Prepend(items + [de(data).value.0], DecodeItems(de, de(data).value.1, n - 1))
  {
    var (x, data') := de(data).value;
    match DecodeItems(de, data', n - 1)
    case Ok((xs, rest)) =>
      assert items + ([x] + xs) == items + [x] + xs;
    case Err(_) =>
  }

  /** Loop shared by the LVList and FixedList deserialisers: `n` calls of
      the item deserialiser, appending to the result list. */
  method DeserializeCount<T>(de: Bytes -> Result<(T, Bytes)>, data: Bytes, n: nat)
    returns (r: Result<(seq<T>, Bytes)>)
    ensures r == DecodeItems(de, data, n)
  {
    var items: seq<T> := [];
    var rest := data;
    var i := 0;
    PrependEmpty(DecodeItems(de, data, n));
    while i < n
      invariant 0 <= i <= n
      invariant DecodeItems(de, data, n) == Prepend(items, DecodeItems(de, rest, n - i))
      decreases n - i
    {
      var step := de(rest);
      if step.Err? {
        return Err(step.error);
      }
      PrependStep(de, items, rest, n - i);
      items := items + [step.value.0];
      rest := step.value.1;
      i := i + 1;
    }
    assert items + [] == items;
    return Ok((items, rest));
  }

  /** What the item codec of a list type promises: an item that serialises
      is read back from its bytes, leaving what follows. */
  ghost predicate ItemRoundTrips<T(!new)>(ser: T -> Result<Bytes>, de: Bytes -> Result<(T, Bytes)>) {
    forall x, rest :: ser(x).Ok? ==> de(ser(x).value + rest) == Ok((x, rest))
  }

  lemma {:induction false} ItemsRoundTrip<T(!new)>(ser: T -> Result<Bytes>, de: Bytes -> Result<(T, Bytes)>, xs: seq<T>, rest: Bytes)
    requires ItemRoundTrips(ser, de)
    requires EncodeItems(ser, xs).Ok?
    ensures DecodeItems(de, EncodeItems(ser, xs).value + rest, |xs|) == Ok((xs, rest))
  {
    if |xs| > 0 {
      var head := ser(xs[0]).value;
      var tail := EncodeItems(ser, xs[1..]).value;
      ItemsRoundTrip(ser, de, xs[1..], rest);
      assert head + tail + rest == head + (tail + rest);
      assert de(head + (tail + rest)) == Ok((xs[0], tail + rest));
      assert [xs[0]] + xs[1..] == xs;
    } else {
      assert [] + rest == rest;
    }
  }

  // ---------------------------------------------------------------- LVList

  /** LVList.serialize: the item count as the header integer, then the items. */
  function EncodeLVList<T>(hdr: IntKind, ser: T -> Result<Bytes>, xs: seq<T>): (r: Result<Bytes>) {
    var h :- EncodeInt(hdr, |xs|);
    var body :- EncodeItems(ser, xs);
    Ok(h + body)
  }

  /** LVList.deserialize as a value: the count, then exactly that many items. */
  function DecodeLVList<T>(hdr: IntKind, de: Bytes -> Result<(T, Bytes)>, data: Bytes): (r: Result<(seq<T>, Bytes)>) {
    var (length, rest) :- DecodeInt(hdr, data);
    // `range(length)` of a negative count (signed header only) is empty
    DecodeItems(de, rest, if length < 0 then 0 else length)
  }

  method DeserializeLVList<T>(hdr: IntKind, de: Bytes -> Result<(T, Bytes)>, data: Bytes)
    returns (r: Result<(seq<T>, Bytes)>)
    ensures r == DecodeLVList(hdr, de, data)
  {
    var h := DecodeInt(hdr, data);
    if h.Err? {
      return Err(h.error);
    }
    var (length, rest) := h.value;
    r := DeserializeCount(de, rest, if length < 0 then 0 else length);
  }

  lemma LVListRoundTrip<T(!new)>(hdr: IntKind, ser: T -> Result<Bytes>, de: Bytes -> Result<(T, Bytes)>, xs: seq<T>, rest: Bytes)
    requires !hdr.signed && ItemRoundTrips(ser, de)
    requires EncodeLVList(hdr, ser, xs).Ok?
    ensures DecodeLVList(hdr, de, EncodeLVList(hdr, ser, xs).value + rest) == Ok((xs, rest))
  {
    var h := EncodeInt(hdr, |xs|).value;
    var body := EncodeItems(ser, xs).value;
    IntRoundTrip(hdr, |xs|, body + rest);
    assert h + body + rest == h + (body + rest);
    ItemsRoundTrip(ser, de, xs, rest);
  }

  /** LVList.serialize raises ValueError when the count does not fit the header. */
  lemma LVListCountOverflow<T>(hdr: IntKind, ser: T -> Result<Bytes>, xs: seq<T>)
    requires !hdr.signed && |xs| >= Pow256(hdr.size)
    ensures EncodeLVList(hdr, ser, xs) == Err(ValueError)
  {
  }

  // -------------------------------------------------------------- FixedList

  /** FixedList.serialize: ValueError unless the list has exactly `length` items. */
  function EncodeFixedList<T>(length: nat, ser: T -> Result<Bytes>, xs: seq<T>): (r: Result<Bytes>)
    ensures |xs| != length ==> r == Err(ValueError)
  {
    if |xs| != length then Err(ValueError) else EncodeItems(ser, xs)
  }

  method DeserializeFixedList<T>(length: nat, de: Bytes -> Result<(T, Bytes)>, data: Bytes)
    returns (r: Result<(seq<T>, Bytes)>)
    ensures r == DecodeItems(de, data, length)
  {
    r := DeserializeCount(de, data, length);
  }

  lemma FixedListRoundTrip<T(!new)>(length: nat, ser: T -> Result<Bytes>, de: Bytes -> Result<(T, Bytes)>, xs: seq<T>, rest: Bytes)
    requires ItemRoundTrips(ser, de)
    requires EncodeFixedList(length, ser, xs).Ok?
    ensures |xs| == length
    ensures DecodeItems(de, EncodeFixedList(length, ser, xs).value + rest, length) == Ok((xs, rest))
  {
    ItemsRoundTrip(ser, de, xs, rest);
  }

  // ----------------------------------------------------------- CompleteList

  /** Item deserialisers of the catalog always consume input; otherwise the
      `while data:` loop of CompleteList would never end. */
  ghost predicate Consumes<T(!new)>(de: Bytes -> Result<(T, Bytes)>) {
    forall d :: de(d).Ok? ==> |de(d).value.1| < |d|
  }

  /** CompleteList.deserialize as a value: items until the data is empty. */
  function DecodeComplete<T(!new)>(de: Bytes -> Result<(T, Bytes)>, data: Bytes): (r: Result<seq<T>>)
    requires Consumes(de)
    decreases |data|
  {
    if |data| == 0 then Ok([])
    else
      var (x, data') :- de(data);
      var xs :- DecodeComplete(de, data');
      Ok([x] + xs)
  }

  method DeserializeComplete<T(!new)>(de: Bytes -> Result<(T, Bytes)>, data: Bytes)
    returns (r: Result<(seq<T>, Bytes)>)
    requires Consumes(de)
    ensures r.Ok? ==> r.value.1 == [] && DecodeComplete(de, data) == Ok(r.value.0)
    ensures r.Err? ==> DecodeComplete(de, data).Err?
  {
    var items: seq<T> := [];
    var rest := data;
    if DecodeComplete(de, data).Ok? {
      assert [] + DecodeComplete(de, data).value == DecodeComplete(de, data).value;
    }
    while |rest| > 0
      invariant DecodeComplete(de, data) == (match DecodeComplete(de, rest)
                                            case Ok(ys) => Ok(items + ys)
                                            case Err(e) => Err(e))
      decreases |rest|
    {
      var step := de(rest);
      if step.Err? {
        return Err(step.error);
      }
      var (x, rest') := step.value;
      assert |rest'| < |rest| by {
        assert de(rest).Ok?;
      }
      if DecodeComplete(de, rest').Ok? {
        var ys := DecodeComplete(de, rest').value;
        assert items + ([x] + ys) == items + [x] + ys;
      }
      items := items + [x];
      rest := rest';
    }
    assert items + [] == items;
    return Ok((items, []));
  }

  lemma {:induction false} CompleteRoundTrip<T(!new)>(ser: T -> Result<Bytes>, de: Bytes -> Result<(T, Bytes)>, xs: seq<T>)
    requires ItemRoundTrips(ser, de) && Consumes(de)
    requires EncodeItems(ser, xs).Ok?
    ensures DecodeComplete(de, EncodeItems(ser, xs).value) == Ok(xs)
  {
    if |xs| > 0 {
      var head := ser(xs[0]).value;
      var tail := EncodeItems(ser, xs[1..]).value;
      CompleteRoundTrip(ser, de, xs[1..]);
      assert de(head + tail) == Ok((xs[0], tail));
      assert |head + tail| > 0 by {
        assert |tail| < |head + tail|;
      }
      assert [xs[0]] + xs[1..] == xs;
    }
  }

  // --------------------------------------------------- integer item codecs

  function IntSer(k: IntKind): int -> Result<Bytes> {
    v => EncodeInt(k, v)
  }

  function IntDe(k: IntKind): Bytes -> Result<(int, Bytes)> {
    d => DecodeInt(k, d)
  }

  lemma IntCodecRoundTrips(k: IntKind)
    ensures ItemRoundTrips(IntSer(k), IntDe(k))
    ensures Consumes(IntDe(k))
  {
    forall x, rest | IntSer(k)(x).Ok?
      ensures IntDe(k)(IntSer(k)(x).value + rest) == Ok((x, rest))
    {
      IntRoundTrip(k, x, rest);
    }
  }

  /** A list of `n` integers cannot be read from fewer than `n * size` bytes. */
  lemma {:induction false} IntItemsTruncated(k: IntKind, data: Bytes, n: nat)
    requires |data| < n * k.size
    ensures DecodeItems(IntDe(k), data, n).Err?
  {
    if n > 0 && |data| >= k.size {
      IntItemsTruncated(k, data[k.size..], n - 1);
    }
  }

  /** A single unsigned byte decodes as itself. */
  lemma DecodeByte(b: Bytes)
    requires |b| >= 1
    ensures DecodeInt(UInt8, b) == Ok((b[0] as int, b[1..]))
  {
    assert b[..1][1..] == [];
  }

  /** `n` unsigned bytes read as items are the first `n` bytes. */
  lemma {:induction false} ByteItems(b: Bytes, n: nat)
    requires n <= |b|
    ensures DecodeItems(IntDe(UInt8), b, n) == Ok((b[..n], b[n..]))
    decreases n
  {
    if n > 0 {
      DecodeByte(b);
      assert IntDe(UInt8)(b) == DecodeInt(UInt8, b);
      ByteItems(b[1..], n - 1);
      assert [b[0]] + b[1..][..n - 1] == b[..n];
      assert b[1..][n - 1..] == b[n..];
    }
  }

  /** A test-suite instance: LVList[uint8 header, uint8 items] reads
      b"\x0412345" as four items with b"5" left over. */
  lemma LVListExample()
    ensures DecodeLVList(UInt8, IntDe(UInt8), [4, 49, 50, 51, 52, 53]) == Ok(([49, 50, 51, 52], [53]))
  {
    var d: Bytes := [4, 49, 50, 51, 52, 53];
    DecodeByte(d);
    ByteItems(d[1..], 4);
    assert d[1..][..4] == [49, 50, 51, 52] && d[1..][4..] == [53];
  }
}
