/** The simple descriptor of types/structs.py: a zigpy struct whose two
    cluster lists are first read as one list and then split by the two
    cluster counts. */
module Structs {
  import opened Wrappers
  import opened Basic
  import opened Records

  datatype SimpleDescriptor = SimpleDescriptor(
    endpoint: int,
    profile: int,
    deviceType: int,
    deviceVersion: int,
    inputCount: nat,
    outputCount: nat,
    inputClusters: seq<int>,
    outputClusters: seq<int>)

  /** The six fixed fields in front of the cluster lists: endpoint,
      profile, device_type, device_version and the two counts. */
  const DescriptorHeader: seq<FieldType> :=
    [IntField(UInt8), IntField(UInt16), IntField(UInt16), IntField(UInt8), IntField(UInt8), IntField(UInt8)]

  lemma HeaderSize()
    ensures ByteSize(DescriptorHeader) == 8
  {
    var u8, u16 := IntField(UInt8), IntField(UInt16);
    ByteSizeSmall(u8, u8, u8);
    ByteSizeSmall(u8, u16, u16);
    ByteSizeAppend([u8, u16, u16], [u8, u8, u8]);
    assert DescriptorHeader == [u8, u16, u16] + [u8, u8, u8];
  }

  function IntOf(v: FieldValue): int {
    if v.IntVal? then v.i else 0
  }

  /** `t.List[t.uint16_t]` read greedily: u16 items until the data is
      empty. */
  function DecodeClusters(data: Bytes): Result<seq<int>> {
    IntCodecRoundTrips(UInt16);
    DecodeComplete(IntDe(UInt16), data)
  }

  function EncodeClusters(xs: seq<int>): Result<Bytes> {
    EncodeItems(IntSer(UInt16), xs)
  }

  /** The inherited Struct.deserialize: the fixed fields, then
      input_clusters takes every remaining u16, which leaves
      output_clusters empty and no data behind. */
  function DecodeBase(data: Bytes): Result<SimpleDescriptor> {
    var (h, rest) :- DecodeStruct(DescriptorHeader, data);
    var clusters :- DecodeClusters(rest);
    Ok(SimpleDescriptor(IntOf(h[0]), IntOf(h[1]), IntOf(h[2]), IntOf(h[3]), Count(h[4]), Count(h[5]), clusters, []))
  }

  /** `xs[lo:hi]` with 0 <= lo <= hi: Python clamps both ends to the list. */
  function Slice(xs: seq<int>, lo: nat, hi: nat): (r: seq<int>)
    requires lo <= hi
  {
    var h := if hi <= |xs| then hi else |xs|;
    var l := if lo <= h then lo else h;
    xs[l..h]
  }

  /** `xs[lo:]`, empty when lo is past the end. */
  function From(xs: seq<int>, lo: nat): seq<int> {
    if lo <= |xs| then xs[lo..] else []
  }

  /** SimpleDescriptor.deserialize: the first input_clusters_count entries
      of the base list are the input clusters, the next
      output_clusters_count the output clusters, and the entries beyond are
      serialised again as the returned remainder. */
  function Deserialize(data: Bytes): Result<(SimpleDescriptor, Bytes)> {
    var desc :- DecodeBase(data);
    var all := desc.inputClusters;
    var i, o := desc.inputCount, desc.outputCount;
    var rest :- EncodeClusters(From(all, i + o));
    Ok((desc.(inputClusters := Slice(all, 0, i), outputClusters := Slice(all, i, i + o)), rest))
  }

  // -------------------------------------------------------------- lemmas

  /** A greedy u16 list is read exactly from an even number of bytes, one
      entry per two bytes, each entry a u16. */
  lemma {:induction false} ClustersDecode(data: Bytes)
    ensures DecodeClusters(data).Ok? <==> |data| % 2 == 0
    ensures DecodeClusters(data).Ok? ==>
      |DecodeClusters(data).value| == |data| / 2 &&
      forall k :: 0 <= k < |DecodeClusters(data).value| ==> InRange(UInt16, DecodeClusters(data).value[k])
    decreases |data|
  {
    IntCodecRoundTrips(UInt16);
    if |data| >= 2 {
      ClustersDecode(data[2..]);
      assert IntDe(UInt16)(data) == DecodeInt(UInt16, data);
      var tail := DecodeClusters(data[2..]);
      if tail.Ok? {
        var x := DecodeInt(UInt16, data).value.0;
        var xs := DecodeClusters(data).value;
        assert xs == [x] + tail.value;
        forall k | 0 <= k < |xs|
          ensures InRange(UInt16, xs[k])
        {
          if k > 0 {
            assert xs[k] == tail.value[k - 1];
          }
        }
      }
    } else if |data| == 1 {
      assert IntDe(UInt16)(data) == DecodeInt(UInt16, data);
    }
  }

  /** Entries that are u16 values always serialise. */
  lemma ClustersEncode(xs: seq<int>)
    requires forall k :: 0 <= k < |xs| ==> InRange(UInt16, xs[k])
    ensures EncodeClusters(xs).Ok?
  {
    assert forall k :: 0 <= k < |xs| ==> IntSer(UInt16)(xs[k]).Ok?;
  }

  /** The base struct is read exactly from eight header bytes followed by
      an even number of bytes; its counts are bytes 6 and 7. */
  lemma BaseDecodes(data: Bytes)
    ensures DecodeBase(data).Ok? <==> |data| >= 8 && (|data| - 8) % 2 == 0
    ensures DecodeBase(data).Ok? ==>
      && DecodeBase(data).value.inputCount == data[6] as int
      && DecodeBase(data).value.outputCount == data[7] as int
      && DecodeClusters(data[8..]).Ok?
      && DecodeBase(data).value.inputClusters == DecodeClusters(data[8..]).value
  {
    HeaderSize();
    StructDecodes(DescriptorHeader, data);
    if |data| >= 8 {
      ClustersDecode(data[8..]);
      HeaderCounts(data);
    }
  }

  /** The count fields are read from bytes 6 and 7. */
  lemma HeaderCounts(data: Bytes)
    requires |data| >= 8
    ensures DecodeStruct(DescriptorHeader, data).Ok?
    ensures Count(DecodeStruct(DescriptorHeader, data).value.0[4]) == data[6] as int
    ensures Count(DecodeStruct(DescriptorHeader, data).value.0[5]) == data[7] as int
  {
    HeaderSize();
    StructDecodes(DescriptorHeader, data);
    PrefixSizes();
    FieldAt(DescriptorHeader, data, 4);
    LeadingByte(DescriptorHeader[4..], data[6..]);
    FieldAt(DescriptorHeader, data, 5);
    LeadingByte(DescriptorHeader[5..], data[7..]);
  }

  /** The count fields sit at offsets 6 and 7. */
  lemma PrefixSizes()
    ensures ByteSize(DescriptorHeader[..4]) == 6
    ensures ByteSize(DescriptorHeader[..5]) == 7
  {
    var u8, u16 := IntField(UInt8), IntField(UInt16);
    ByteSizeSmall(u16, u16, u8);
    ByteSizeCons(u8, [u16, u16, u8]);
    assert DescriptorHeader[..4] == [u8] + [u16, u16, u8];
    ByteSizeSmall(u16, u8, u8);
    ByteSizeCons(u16, [u16, u8, u8]);
    ByteSizeCons(u8, [u16, u16, u8, u8]);
    assert DescriptorHeader[..5] == [u8] + ([u16] + [u16, u8, u8]);
  }

  /** The k-th value of a struct is the first value read for the fields
      from k on, at the offset of the fields before k. */
  lemma {:induction false} FieldAt(fields: seq<FieldType>, data: Bytes, k: nat)
    requires DecodeStruct(fields, data).Ok? && k < |fields|
    ensures ByteSize(fields[..k]) <= |data|
    ensures DecodeStruct(fields[k..], data[ByteSize(fields[..k])..]).Ok?
    ensures DecodeStruct(fields, data).value.0[k]
         == DecodeStruct(fields[k..], data[ByteSize(fields[..k])..]).value.0[0]
    decreases k
  {
    if k == 0 {
      assert fields[..0] == [];
      assert fields[0..] == fields;
    } else {
      var (v, data') := DecodeField(fields[0], data).value;
      FieldAt(fields[1..], data', k - 1);
      assert fields[1..][k - 1..] == fields[k..];
      ByteSizeCons(fields[0], fields[1..][..k - 1]);
      assert [fields[0]] + fields[1..][..k - 1] == fields[..k];
    }
  }

  /** The three slices cover the list, in order, with nothing lost or
      repeated. */
  lemma SlicesPartition(xs: seq<int>, i: nat, o: nat)
    ensures Slice(xs, 0, i) + Slice(xs, i, i + o) + From(xs, i + o) == xs
  {
  }

  /** SimpleDescriptor.deserialize succeeds exactly when the base struct
      can be read. The input clusters are the first input_clusters_count
      entries of the base list, the output clusters the next
      output_clusters_count, and the remainder reads back as the entries
      beyond, so input ++ output ++ rest is the base list; with counts
      that fit the list, each part has its count as length. The counts
      come from bytes 6 and 7 and are kept. */
  lemma DeserializeSplits(data: Bytes)
    ensures Deserialize(data).Ok? <==> DecodeBase(data).Ok?
    ensures Deserialize(data).Ok? ==>
      var all := DecodeBase(data).value.inputClusters;
      var (d, rest) := Deserialize(data).value;
      && |data| >= 8 && d.inputCount == data[6] as int && d.outputCount == data[7] as int
      && DecodeClusters(rest).Ok?
      && d.inputClusters + d.outputClusters + DecodeClusters(rest).value == all
      && (d.inputCount + d.outputCount <= |all| ==>
            |d.inputClusters| == d.inputCount && |d.outputClusters| == d.outputCount)
  {
    BaseDecodes(data);
    if DecodeBase(data).Ok? {
      var desc := DecodeBase(data).value;
      var all := desc.inputClusters;
      var i, o := desc.inputCount, desc.outputCount;
      ClustersDecode(data[8..]);
      var tail := From(all, i + o);
      assert forall k :: 0 <= k < |tail| ==> InRange(UInt16, tail[k]);
      ClustersEncode(tail);
      IntCodecRoundTrips(UInt16);
      CompleteRoundTrip(IntSer(UInt16), IntDe(UInt16), tail);
      SlicesPartition(all, i, o);
    }
  }
}
