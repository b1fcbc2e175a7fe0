/** The NVRAM dataset layouts of types/nvids.py and types/nvram.py: the
    byte-size sum of `get_byte_size`, the record layouts, and the datasets
    built from records (the address map in both of its header forms, the
    APS secure keys, the generic byte dataset). */
module Nvram {
  import opened Wrappers
  import opened Basic
  import opened Records

  /** NVRAMStruct.get_byte_size: the accumulating loop over the fields. */
  method GetByteSize(fields: seq<FieldType>) returns (size: nat)
    ensures size == ByteSize(fields)
  {
    size := 0;
    var i := 0;
    assert fields[0..] == fields;
    while i < |fields|
      invariant 0 <= i <= |fields|
      invariant size + ByteSize(fields[i..]) == ByteSize(fields)
      decreases |fields| - i
    {
      assert fields[i..][1..] == fields[i + 1..];
      size := size + FieldSize(fields[i]);
      i := i + 1;
    }
  }

  // ----------------------------------------------------- the record layouts

  /** NwkAddrMapHeader of nvids.py: byte_count, entry_count, version, _align. */
  const AddrMapHeader: seq<FieldType> := [IntField(UInt16), IntField(UInt8), IntField(UInt8), IntField(UInt16)]

  /** NwkAddrMapRecord (both files): ieee_addr, nwk_addr, index,
      redirect_type, redirect_ref, _align. */
  const AddrMapRecord: seq<FieldType> := [EUI64, NWK, IntField(UInt8), IntField(UInt8), IntField(UInt8), IntField(UInt24)]

  /** ApsSecureEntry: ieee_addr, key, _unknown_1. */
  const SecureEntry: seq<FieldType> := [EUI64, KeyData, IntField(UInt32)]

  /** NwkAddrMapHeader of nvram.py: length, version, _align. */
  const NvAddrMapHeader: seq<FieldType> := [IntField(UInt8), IntField(UInt8), IntField(UInt16)]

  /** The byte sizes of the layouts, and of the u8, EUI64, u8 struct of the
      test suite, which is 10 bytes. */
  lemma LayoutSizes()
    ensures ByteSize(AddrMapHeader) == 6
    ensures ByteSize(AddrMapRecord) == 16
    ensures ByteSize(SecureEntry) == 28
    ensures ByteSize(NvAddrMapHeader) == 4
    ensures ByteSize([IntField(UInt8), EUI64, IntField(UInt8)]) == 10
  {
    var u8, u16 := IntField(UInt8), IntField(UInt16);
    ByteSizeSmall(u8, u8, u16);
    ByteSizeCons(u16, [u8, u8, u16]);
    assert AddrMapHeader == [u16] + [u8, u8, u16];
    ByteSizeSmall(u8, u8, IntField(UInt24));
    ByteSizeSmall(EUI64, NWK, u8);
    ByteSizeAppend([EUI64, NWK, u8], [u8, u8, IntField(UInt24)]);
    assert AddrMapRecord == [EUI64, NWK, u8] + [u8, u8, IntField(UInt24)];
    ByteSizeSmall(EUI64, KeyData, IntField(UInt32));
    ByteSizeSmall(u8, EUI64, u8);
  }

  // ------------------------------------------------ DSNwkAddrMap (nvids.py)

  const AddrMapVersion: int := 2

  /** DSNwkAddrMap.deserialize as a value: the header, then exactly
      `entry_count` records, then whatever follows. */
  function DecodeAddrMap(data: Bytes): Result<(seq<Struct>, Bytes)> {
    var (header, rest) :- DecodeStruct(AddrMapHeader, data);
    DecodeItems(StructDe(AddrMapRecord), rest, Count(header[1]))
  }

  method DeserializeAddrMap(data: Bytes) returns (r: Result<(seq<Struct>, Bytes)>)
    ensures r == DecodeAddrMap(data)
  {
    var h := DecodeStruct(AddrMapHeader, data);
    if h.Err? {
      return Err(h.error);
    }
    var (header, rest) := h.value;
    r := DeserializeCount(StructDe(AddrMapRecord), rest, Count(header[1]));
  }

  /** The header DSNwkAddrMap.serialize writes for `n` records taking
      `itemBytes` bytes: byte_count leaves out its own two bytes. */
  function AddrMapHeaderFor(itemBytes: nat, n: nat): Struct {
    [IntVal(itemBytes + ByteSize(AddrMapHeader) - 2), IntVal(n), IntVal(AddrMapVersion), IntVal(0)]
  }

  /** DSNwkAddrMap.serialize: the records, behind the header computed from
      them. */
  function EncodeAddrMap(xs: seq<Struct>): Result<Bytes> {
    var items :- EncodeItems(StructSer(AddrMapRecord), xs);
    var header :- EncodeStruct(AddrMapHeader, AddrMapHeaderFor(|items|, |xs|));
    Ok(header + items)
  }

  /** The header written for `n` records: byte_count 16n+4, entry_count n,
      version 2 and align 0; it fits exactly when n < 256. */
  lemma AddrMapHeaderFits(n: nat)
    ensures AddrMapHeaderFor(n * 16, n) == [IntVal(16 * n + 4), IntVal(n), IntVal(2), IntVal(0)]
    ensures EncodeStruct(AddrMapHeader, AddrMapHeaderFor(n * 16, n)).Ok? <==> n < 256
  {
    LayoutSizes();
    var h := AddrMapHeaderFor(n * 16, n);
    StructEncodes(AddrMapHeader, h);
    assert Pow256(1) == 256 && Pow256(2) == 65536;
    if n < 256 {
      assert Fits(AddrMapHeader[0], h[0]) && Fits(AddrMapHeader[1], h[1]);
      assert Fits(AddrMapHeader[2], h[2]) && Fits(AddrMapHeader[3], h[3]);
    } else {
      assert !Fits(AddrMapHeader[1], h[1]);
    }
  }

  /** DSNwkAddrMap.serialize succeeds exactly when every record serialises
      and there are fewer than 256 of them (byte_count never overflows
      first). */
  lemma AddrMapEncodes(xs: seq<Struct>)
    ensures EncodeAddrMap(xs).Ok? <==> EncodeItems(StructSer(AddrMapRecord), xs).Ok? && |xs| < 256
  {
    var ri := EncodeItems(StructSer(AddrMapRecord), xs);
    if ri.Ok? {
      LayoutSizes();
      RecordsLength(AddrMapRecord, xs);
      AddrMapHeaderFits(|xs|);
      assert AddrMapHeaderFor(|ri.value|, |xs|) == AddrMapHeaderFor(|xs| * 16, |xs|);
    }
  }

  /** The written header holds byte_count 16n+4 (36 for two records),
      entry_count n, version 2 and align 0, and the records follow it. */
  lemma AddrMapLayout(xs: seq<Struct>)
    requires EncodeAddrMap(xs).Ok?
    ensures DecodeStruct(AddrMapHeader, EncodeAddrMap(xs).value)
         == Ok(([IntVal(16 * |xs| + 4), IntVal(|xs|), IntVal(2), IntVal(0)],
                EncodeItems(StructSer(AddrMapRecord), xs).value))
  {
    var items := EncodeItems(StructSer(AddrMapRecord), xs).value;
    var h := AddrMapHeaderFor(|items|, |xs|);
    AddrMapHeaderOf(xs);
    var hb := EncodeStruct(AddrMapHeader, h).value;
    StructRoundTrip(AddrMapHeader, h, items);
  }

  /** The header written by a successful serialize is the one for 16n
      record bytes. */
  lemma AddrMapHeaderOf(xs: seq<Struct>)
    requires EncodeAddrMap(xs).Ok?
    ensures |EncodeItems(StructSer(AddrMapRecord), xs).value| == 16 * |xs|
    ensures AddrMapHeaderFor(|EncodeItems(StructSer(AddrMapRecord), xs).value|, |xs|)
         == [IntVal(16 * |xs| + 4), IntVal(|xs|), IntVal(2), IntVal(0)]
  {
    RecordBytes(xs);
    HeaderBytes([]);
  }

  /** A serialised address map of n records is 6 + 16n bytes. */
  lemma AddrMapLength(xs: seq<Struct>)
    requires EncodeAddrMap(xs).Ok?
    ensures |EncodeAddrMap(xs).value| == 6 + 16 * |xs|
  {
    var items := EncodeItems(StructSer(AddrMapRecord), xs).value;
    var h := AddrMapHeaderFor(|items|, |xs|);
    RecordBytes(xs);
    HeaderBytes(h);
  }

  /** `n` records take 16n bytes. */
  lemma RecordBytes(xs: seq<Struct>)
    requires EncodeItems(StructSer(AddrMapRecord), xs).Ok?
    ensures |EncodeItems(StructSer(AddrMapRecord), xs).value| == 16 * |xs|
  {
    LayoutSizes();
    RecordsLength(AddrMapRecord, xs);
  }

  /** The header takes 6 bytes, and byte_count is the record bytes plus 4. */
  lemma HeaderBytes(h: Struct)
    ensures EncodeStruct(AddrMapHeader, h).Ok? ==> |EncodeStruct(AddrMapHeader, h).value| == 6
    ensures forall b: nat, n: nat :: AddrMapHeaderFor(b, n) == [IntVal(b + 4), IntVal(n), IntVal(2), IntVal(0)]
  {
    LayoutSizes();
  }

  /** Two records: byte_count 36, entry_count 2, version 2. */
  lemma AddrMapTwoRecords(xs: seq<Struct>)
    requires |xs| == 2 && EncodeAddrMap(xs).Ok?
    ensures DecodeStruct(AddrMapHeader, EncodeAddrMap(xs).value).Ok?
    ensures DecodeStruct(AddrMapHeader, EncodeAddrMap(xs).value).value.0
         == [IntVal(36), IntVal(2), IntVal(2), IntVal(0)]
  {
    AddrMapLayout(xs);
  }

  /** Reading a serialised address map gives the records back and leaves
      what follows untouched. */
  lemma AddrMapRoundTrip(xs: seq<Struct>, rest: Bytes)
    requires EncodeAddrMap(xs).Ok?
    ensures DecodeAddrMap(EncodeAddrMap(xs).value + rest) == Ok((xs, rest))
  {
    AddrMapEncodes(xs);
    var items := EncodeItems(StructSer(AddrMapRecord), xs).value;
    var header := EncodeStruct(AddrMapHeader, AddrMapHeaderFor(|items|, |xs|)).value;
    RecordsLength(AddrMapRecord, xs);
    StructRoundTrip(AddrMapHeader, AddrMapHeaderFor(|items|, |xs|), items + rest);
    assert header + items + rest == header + (items + rest);
    RecordsRoundTrip(AddrMapRecord, xs, rest);
  }

  /** An address map as the NCP stores it: the header serialize would write
      for its entry count, then that many records. */
  predicate WellFormedAddrMap(b: Bytes) {
    && DecodeStruct(AddrMapHeader, b).Ok?
    && var (header, rest) := DecodeStruct(AddrMapHeader, b).value;
       var n := Count(header[1]);
       && header == [IntVal(16 * n + 4), IntVal(n), IntVal(2), IntVal(0)]
       && |rest| >= 16 * n
  }

  /** `n` address-map records read from bytes serialise back to the 16n
      bytes they took, and the rest follows them. */
  lemma AddrRecordsReencode(rest: Bytes, n: nat)
    requires |rest| >= 16 * n
    ensures DecodeItems(StructDe(AddrMapRecord), rest, n).Ok?
    ensures var (xs, rest') := DecodeItems(StructDe(AddrMapRecord), rest, n).value;
      EncodeItems(StructSer(AddrMapRecord), xs) == Ok(rest[..16 * n]) && rest' == rest[16 * n..]
  {
    LayoutSizes();
    RecordsDecodeThenEncode(AddrMapRecord, rest, n);
    RecordsDecode(AddrMapRecord, rest, n);
  }

  lemma EncodeAddrMapOf(xs: seq<Struct>, hb: Bytes, items: Bytes)
    requires EncodeItems(StructSer(AddrMapRecord), xs) == Ok(items)
    requires EncodeStruct(AddrMapHeader, AddrMapHeaderFor(|items|, |xs|)) == Ok(hb)
    ensures EncodeAddrMap(xs) == Ok(hb + items)
  {
  }

  /** For a well-formed address map, serialising what was read gives the
      bytes it was read from. */
  lemma AddrMapReencodes(b: Bytes)
    requires WellFormedAddrMap(b)
    ensures DecodeAddrMap(b).Ok? && EncodeAddrMap(DecodeAddrMap(b).value.0).Ok?
    ensures EncodeAddrMap(DecodeAddrMap(b).value.0).value + DecodeAddrMap(b).value.1 == b
  {
    LayoutSizes();
    var (header, rest) := DecodeStruct(AddrMapHeader, b).value;
    var n := Count(header[1]);
    StructDecodes(AddrMapHeader, b);
    StructDecodeThenEncode(AddrMapHeader, b);
    AddrRecordsReencode(rest, n);
    var xs := DecodeItems(StructDe(AddrMapRecord), rest, n).value.0;
    var items := rest[..16 * n];
    AddrMapHeaderFits(n);
    EncodeAddrMapOf(xs, b[..6], items);
    assert b[..6] + items + rest[16 * n..] == b;
  }

  // --------------------------------------------- DSApsSecureKeys (nvids.py)

  /** `int((length - 4) / 28)`: true division truncated toward zero, so
      lengths below 4 give no entry and the others round down. */
  function SecureEntryCount(length: nat): nat {
    if length < 4 then 0 else (length - 4) / ByteSize(SecureEntry)
  }

  /** `data[n:]`, which is empty when the data is shorter than `n`. */
  function Drop(data: Bytes, n: nat): Bytes {
    if |data| < n then [] else data[n..]
  }

  /** DSApsSecureKeys.deserialize as a value: a u16 length, four skipped
      bytes, then the entries that length accounts for. */
  function DecodeSecureKeys(data: Bytes): Result<(seq<Struct>, Bytes)> {
    var (length, rest) :- DecodeInt(UInt16, data);
    DecodeItems(StructDe(SecureEntry), Drop(rest, 4), SecureEntryCount(length))
  }

  method DeserializeSecureKeys(data: Bytes) returns (r: Result<(seq<Struct>, Bytes)>)
    ensures r == DecodeSecureKeys(data)
  {
    var h := DecodeInt(UInt16, data);
    if h.Err? {
      return Err(h.error);
    }
    var (length, rest) := h.value;
    r := DeserializeCount(StructDe(SecureEntry), Drop(rest, 4), SecureEntryCount(length));
  }

  /** DSApsSecureKeys.serialize: a u16 of the entries' total size, then the
      entries, with no filler. */
  function EncodeSecureKeys(xs: seq<Struct>): Result<Bytes> {
    var items :- EncodeItems(StructSer(SecureEntry), xs);
    var header :- EncodeInt(UInt16, |xs| * ByteSize(SecureEntry));
    Ok(header + items)
  }

  /** The entry count of the lengths 28n + 4 and 28n. */
  lemma EntryCountOf(n: nat)
    ensures SecureEntryCount(28 * n + 4) == n
    ensures n >= 1 ==> SecureEntryCount(28 * n) == n - 1
  {
    LayoutSizes();
    assert (28 * n) / 28 == n;
    if n >= 1 {
      assert 28 * n - 4 == 28 * (n - 1) + 24;
      assert (28 * (n - 1) + 24) / 28 == n - 1;
    }
  }

  /** What DSApsSecureKeys.deserialize does after reading the length. */
  lemma SecureKeysAfterLength(data: Bytes, n: nat, tail: Bytes)
    requires DecodeInt(UInt16, data) == Ok((28 * n + 4, tail))
    ensures DecodeSecureKeys(data) == DecodeItems(StructDe(SecureEntry), Drop(tail, 4), n)
  {
    EntryCountOf(n);
  }

  /** The layout the NCP sends: a u16 of 28n+4, four bytes of filler, the
      n entries; reading it gives the entries and what follows. */
  lemma SecureKeysRead(xs: seq<Struct>, filler: Bytes, rest: Bytes, data: Bytes)
    requires |filler| == 4 && 28 * |xs| + 4 < 65536
    requires EncodeItems(StructSer(SecureEntry), xs).Ok?
    requires data == EncodeInt(UInt16, 28 * |xs| + 4).value + filler + EncodeItems(StructSer(SecureEntry), xs).value + rest
    ensures DecodeSecureKeys(data) == Ok((xs, rest))
  {
    var n := |xs|;
    var items := EncodeItems(StructSer(SecureEntry), xs).value;
    var tail := filler + (items + rest);
    assert Pow256(2) == 65536;
    LengthThenTail(28 * n + 4, filler, items, rest);
    SecureKeysAfterLength(data, n, tail);
    assert Drop(tail, 4) == items + rest;
    RecordsRoundTrip(SecureEntry, xs, rest);
    var r := DecodeItems(StructDe(SecureEntry), Drop(tail, 4), n);
    assert r == Ok((xs, rest));
    assert DecodeSecureKeys(data) == r;
  }

  /** A u16 in front of three pieces of data is read back from the whole. */
  lemma LengthThenTail(v: int, a: Bytes, b: Bytes, c: Bytes)
    requires InRange(UInt16, v)
    ensures DecodeInt(UInt16, EncodeInt(UInt16, v).value + a + b + c) == Ok((v, a + (b + c)))
  {
    var h := EncodeInt(UInt16, v).value;
    assert h + a + b + c == h + (a + (b + c));
    IntRoundTrip(UInt16, v, a + (b + c));
  }

  /** DSApsSecureKeys.serialize succeeds exactly when every entry serialises
      and 28n fits a u16, and then writes 28n as the length, then the
      entries. */
  lemma SecureKeysWritten(xs: seq<Struct>)
    ensures EncodeSecureKeys(xs).Ok? <==> EncodeItems(StructSer(SecureEntry), xs).Ok? && 28 * |xs| < 65536
    ensures EncodeSecureKeys(xs).Ok? ==>
      var items := EncodeItems(StructSer(SecureEntry), xs).value;
      && DecodeInt(UInt16, EncodeSecureKeys(xs).value) == Ok((28 * |xs|, items))
      && |EncodeSecureKeys(xs).value| == 2 + 28 * |xs|
  {
    LayoutSizes();
    assert Pow256(2) == 65536;
    if EncodeSecureKeys(xs).Ok? {
      var items := EncodeItems(StructSer(SecureEntry), xs).value;
      RecordsLength(SecureEntry, xs);
      IntRoundTrip(UInt16, 28 * |xs|, items);
    }
  }

  /** Serialising is not the inverse of deserialising: n >= 1 entries come
      back as n - 1 (their bytes shifted by the skipped four), and no entry
      comes back with the first four following bytes lost. */
  lemma SecureKeysNotInverse(xs: seq<Struct>, rest: Bytes)
    requires EncodeSecureKeys(xs).Ok?
    ensures |xs| >= 1 && DecodeSecureKeys(EncodeSecureKeys(xs).value + rest).Ok? ==>
      |DecodeSecureKeys(EncodeSecureKeys(xs).value + rest).value.0| == |xs| - 1
    ensures |xs| == 0 ==> DecodeSecureKeys(EncodeSecureKeys(xs).value + rest) == Ok(([], Drop(rest, 4)))
  {
    SecureKeysWritten(xs);
    LayoutSizes();
    var items := EncodeItems(StructSer(SecureEntry), xs).value;
    var h := EncodeInt(UInt16, 28 * |xs|).value;
    IntRoundTrip(UInt16, 28 * |xs|, items + rest);
    assert h + items + rest == h + (items + rest);
    if |xs| >= 1 {
      EntryCountOf(|xs|);
    } else {
      assert items == [];
      assert items + rest == rest;
    }
  }

  // -------------------------------------------------- NwkAddrMap (nvram.py)

  /** NwkAddrMap.deserialize as a value: the four-byte header, then exactly
      `length` records. */
  function DecodeNvAddrMap(data: Bytes): Result<(seq<Struct>, Bytes)> {
    var (header, rest) :- DecodeStruct(NvAddrMapHeader, data);
    DecodeItems(StructDe(AddrMapRecord), rest, Count(header[0]))
  }

  method DeserializeNvAddrMap(data: Bytes) returns (r: Result<(seq<Struct>, Bytes)>)
    ensures r == DecodeNvAddrMap(data)
  {
    var h := DecodeStruct(NvAddrMapHeader, data);
    if h.Err? {
      return Err(h.error);
    }
    var (header, rest) := h.value;
    r := DeserializeCount(StructDe(AddrMapRecord), rest, Count(header[0]));
  }

  /** The nvram.py address map takes its record count from the first byte:
      it is read exactly when 4 + 16 * data[0] bytes are there, gives
      data[0] records and returns exactly the bytes after them. */
  lemma NvAddrMapReads(data: Bytes)
    ensures DecodeNvAddrMap(data).Ok? <==> |data| >= 4 && |data| >= 4 + 16 * (data[0] as int)
    ensures DecodeNvAddrMap(data).Ok? ==>
      && |DecodeNvAddrMap(data).value.0| == data[0] as int
      && DecodeNvAddrMap(data).value.1 == data[4 + 16 * (data[0] as int)..]
  {
    LayoutSizes();
    StructDecodes(NvAddrMapHeader, data);
    if |data| >= 4 {
      LeadingByte(NvAddrMapHeader, data);
      var n: nat := data[0] as int;
      var rest := data[4..];
      RecordsDecode(AddrMapRecord, rest, n);
      if |rest| >= 16 * n {
        assert rest[16 * n..] == data[4 + 16 * n..];
      }
    }
  }

  // ------------------------------------------------------- NVRAMDataset

  /** NVRAMDataset is an LVList of bytes behind a u16 count: it serialises
      exactly when it has fewer than 65536 entries, and reads back. */
  lemma DatasetRoundTrip(xs: seq<int>, rest: Bytes)
    requires forall i :: 0 <= i < |xs| ==> 0 <= xs[i] < 256
    ensures EncodeLVList(UInt16, IntSer(UInt8), xs).Ok? <==> |xs| < 65536
    ensures |xs| < 65536 ==>
      DecodeLVList(UInt16, IntDe(UInt8), EncodeLVList(UInt16, IntSer(UInt8), xs).value + rest) == Ok((xs, rest))
  {
    assert Pow256(1) == 256 && Pow256(2) == 65536;
    assert EncodeItems(IntSer(UInt8), xs).Ok? by {
      forall i | 0 <= i < |xs|
        ensures IntSer(UInt8)(xs[i]).Ok?
      {
        assert InRange(UInt8, xs[i]);
      }
    }
    if |xs| < 65536 {
      IntCodecRoundTrips(UInt8);
      LVListRoundTrip(UInt16, IntSer(UInt8), IntDe(UInt8), xs, rest);
    }
  }
}
