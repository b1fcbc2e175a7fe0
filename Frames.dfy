/** The serial frame of zigpy_zboss/frames.py: a 7-byte low-level header
    (LLHeader, an unsigned 56-bit integer), an optional CRC16-protected
    high-level packet (HLPacket), frame parsing, ACK frames, and the split
    and merge of packets longer than the 247-byte low-level body limit. */
module Frames {
  import opened Wrappers
  import opened Basic
  import opened Headers

  /** ZBNCP_LL_BODY_SIZE_MAX */
  const LLBodySizeMax: nat := 247

  /** Frame.signature; on the wire it reads DE AD. */
  const FrameSignature: nat := 0xADDE

  const P40: nat := 0x100_0000_0000
  const P48: nat := 0x1_0000_0000_0000
  const P56: nat := 0x100_0000_0000_0000

  type uint16 = x: int | 0 <= x < 0x1_0000
  type LLHeader = h: int | 0 <= h < P56

  /** The CRC8 and CRC16 digests, which the model leaves uninterpreted:
      every property below holds for every pair of checksum functions. */
  datatype Checksums = Checksums(crc8: Bytes -> byte, crc16: Bytes -> uint16)

  // --------------------------------------------------------------- LLHeader

  /** `self & 0xFFFF` */
  function SignatureOf(h: LLHeader): uint16 { h % P16 }

  /** `(self >> 16) & 0xFFFF` */
  function Size(h: LLHeader): uint16 { (h / P16) % P16 }

  /** `(self >> 32) & 0xFF` */
  function FrameType(h: LLHeader): byte { (h / P32) % 256 }

  /** `(self >> 40) & 0xFF` */
  function Flags(h: LLHeader): byte { (h / P40) % 256 }

  /** `self >> 48` */
  function Crc8Of(h: LLHeader): byte { h / P48 }

  /** The header with the given fields. */
  function Pack(sig: uint16, size: uint16, ftype: byte, flags: byte, crc: byte): LLHeader {
    sig + P16 * size + P32 * ftype + P40 * flags + P48 * crc
  }

  /** Each accessor reads back its own field of a packed header. */
  lemma PackFields(sig: uint16, size: uint16, ftype: byte, flags: byte, crc: byte)
    ensures var h := Pack(sig, size, ftype, flags, crc);
      SignatureOf(h) == sig && Size(h) == size && FrameType(h) == ftype && Flags(h) == flags && Crc8Of(h) == crc
  {
    var h := Pack(sig, size, ftype, flags, crc);
    assert h / P48 == crc;
    assert h / P40 == flags + 256 * crc;
    assert h / P32 == ftype + 256 * flags + P16 * crc;
    assert h / P16 == size + P16 * (ftype + 256 * flags + P16 * crc);
  }

  /** The five fields make up the whole header: there are no other bits. */
  lemma Unpack(h: LLHeader)
    ensures h == Pack(SignatureOf(h), Size(h), FrameType(h), Flags(h), Crc8Of(h))
  {
    var q16, q32, q40, q48 := h / P16, h / P32, h / P40, h / P48;
    assert q32 == q16 / P16;
    assert q40 == q32 / 256;
    assert q48 == q40 / 256;
    assert h == h % P16 + P16 * q16;
    assert q16 == q16 % P16 + P16 * q32;
    assert q32 == q32 % 256 + 256 * q40;
    assert q40 == q40 % 256 + 256 * q48;
  }

  function WithSignature(h: LLHeader, value: int): (r: LLHeader)
    ensures SignatureOf(r) == value % P16
    ensures Size(r) == Size(h) && FrameType(r) == FrameType(h) && Flags(r) == Flags(h) && Crc8Of(r) == Crc8Of(h)
  {
    Unpack(h);
    PackFields(value % P16, Size(h), FrameType(h), Flags(h), Crc8Of(h));
    h - SignatureOf(h) + value % P16
  }

  function WithSize(h: LLHeader, value: int): (r: LLHeader)
    ensures Size(r) == value % P16
    ensures SignatureOf(r) == SignatureOf(h) && FrameType(r) == FrameType(h) && Flags(r) == Flags(h) && Crc8Of(r) == Crc8Of(h)
  {
    Unpack(h);
    PackFields(SignatureOf(h), value % P16, FrameType(h), Flags(h), Crc8Of(h));
    h - Size(h) * P16 + (value % P16) * P16
  }

  function WithFrameType(h: LLHeader, value: int): (r: LLHeader)
    ensures FrameType(r) == value % 256
    ensures SignatureOf(r) == SignatureOf(h) && Size(r) == Size(h) && Flags(r) == Flags(h) && Crc8Of(r) == Crc8Of(h)
  {
    Unpack(h);
    PackFields(SignatureOf(h), Size(h), value % 256, Flags(h), Crc8Of(h));
    h - FrameType(h) * P32 + (value % 256) * P32
  }

  function WithFlags(h: LLHeader, value: int): (r: LLHeader)
    ensures Flags(r) == value % 256
    ensures 0 <= value < 256 ==> Flags(r) == value
    ensures SignatureOf(r) == SignatureOf(h) && Size(r) == Size(h) && FrameType(r) == FrameType(h) && Crc8Of(r) == Crc8Of(h)
  {
    Unpack(h);
    PackFields(SignatureOf(h), Size(h), FrameType(h), value % 256, Crc8Of(h));
    h - Flags(h) * P40 + (value % 256) * P40
  }

  function WithCrc8(h: LLHeader, value: int): (r: LLHeader)
    ensures Crc8Of(r) == value % 256
    ensures SignatureOf(r) == SignatureOf(h) && Size(r) == Size(h) && FrameType(r) == FrameType(h) && Flags(r) == Flags(h)
  {
    Unpack(h);
    PackFields(SignatureOf(h), Size(h), FrameType(h), Flags(h), value % 256);
    h - Crc8Of(h) * P48 + (value % 256) * P48
  }

  /** uint56_t serialisation of the header. */
  function LLSerialize(h: LLHeader): (r: Bytes)
    ensures |r| == 7
  {
    LittleEndian(h, 7)
  }

  lemma Div16(x: nat)
    ensures x / 256 / 256 == x / P16
  {
  }

  lemma Div8(x: nat, d: nat)
    requires d == P16 || d == P32 || d == P40
    ensures x / d / 256 == x / (d * 256)
  {
  }

  /** The seven digits of `LittleEndian(h, 7)`, as repeated quotients. */
  lemma Digits7(h: nat)
    ensures var q1 := h / 256; var q2 := q1 / 256; var q3 := q2 / 256;
      var q4 := q3 / 256; var q5 := q4 / 256; var q6 := q5 / 256;
      LittleEndian(h, 7) == [h % 256, q1 % 256, q2 % 256, q3 % 256, q4 % 256, q5 % 256, q6 % 256]
  {
    var q1 := h / 256;
    var q2 := q1 / 256;
    var q3 := q2 / 256;
    var q4 := q3 / 256;
    var q5 := q4 / 256;
    var q6 := q5 / 256;
    assert LittleEndian(q6, 1) == [q6 % 256];
    assert LittleEndian(q5, 2) == [q5 % 256, q6 % 256];
    assert LittleEndian(q4, 3) == [q4 % 256, q5 % 256, q6 % 256];
    assert LittleEndian(q3, 4) == [q3 % 256, q4 % 256, q5 % 256, q6 % 256];
    assert LittleEndian(q2, 5) == [q2 % 256, q3 % 256, q4 % 256, q5 % 256, q6 % 256];
    assert LittleEndian(q1, 6) == [q1 % 256, q2 % 256, q3 % 256, q4 % 256, q5 % 256, q6 % 256];
  }

  /** The two bytes of the low 16 bits of `q`. */
  lemma Low16(q: nat)
    ensures (q % P16) % 256 == q % 256 && (q % P16) / 256 == (q / 256) % 256
  {
    var hi := q / P16;
    assert q == q % P16 + P16 * hi;
    assert q / 256 == (q % P16) / 256 + 256 * hi;
  }

  /** The wire layout: signature, size (both little-endian), type, flags, crc8. */
  lemma LLHeaderBytes(h: LLHeader)
    ensures var b := LLSerialize(h);
      b[0] == SignatureOf(h) % 256 && b[1] == SignatureOf(h) / 256 &&
      b[2] == Size(h) % 256 && b[3] == Size(h) / 256 &&
      b[4] == FrameType(h) && b[5] == Flags(h) && b[6] == Crc8Of(h)
  {
    Digits7(h);
    var q2 := h / 256 / 256;
    Div16(h);
    Div16(q2);
    Div8(h, P16);
    var q4 := q2 / 256 / 256;
    Div8(h, P32);
    Div8(h, P40);
    assert q4 == h / P32;
    assert q4 / 256 == h / P40;
    assert q4 / 256 / 256 == h / P48;
    Low16(h);
    Low16(q2);
  }

  /** The bytes the header checksum covers, `serialize()[2:6]`. */
  function ChecksumBytes(h: LLHeader): (r: Bytes)
    ensures r == [Size(h) % 256, Size(h) / 256, FrameType(h), Flags(h)]
  {
    LLHeaderBytes(h);
    LLSerialize(h)[2..6]
  }

  predicate ChecksumOk(cs: Checksums, h: LLHeader) {
    cs.crc8(ChecksumBytes(h)) == Crc8Of(h)
  }

  /** LLHeader.deserialize (its uint56_t base): seven bytes, little-endian. */
  function LLDeserialize(data: Bytes): (r: Result<(LLHeader, Bytes)>)
    ensures r.Err? <==> |data| < 7
    ensures r.Ok? ==> LLSerialize(r.value.0) == data[..7] && r.value.1 == data[7..]
  {
    if |data| < 7 then Err(ValueError)
    else
      LittleEndianOfFromLittleEndian(data[..7]);
      Ok((FromLittleEndian(data[..7]), data[7..]))
  }

  /** The header every API frame starts from: signature, size and type set,
      flags and crc8 still zero. */
  function BaseHeader(size: int): (r: LLHeader)
    ensures SignatureOf(r) == FrameSignature && Size(r) == size % P16
    ensures FrameType(r) == ApiHlType && Flags(r) == 0 && Crc8Of(r) == 0
  {
    WithFrameType(WithSize(WithSignature(0, FrameSignature), size), ApiHlType)
  }

  // --------------------------------------------------------------- HLPacket

  datatype HLPacket = HLPacket(header: Option<HLHeader>, data: Bytes)

  /** `if self.header:` — a header is written only when it is not None and
      not the integer 0. */
  predicate HeaderWritten(p: HLPacket) {
    p.header.Some? && p.header.value != 0
  }

  /** What the CRC16 protects: the header (when written) and the data. */
  function HLBody(p: HLPacket): (r: Bytes)
    ensures |r| == (if HeaderWritten(p) then 4 else 0) + |p.data|
  {
    (if HeaderWritten(p) then LittleEndian(p.header.value, 4) else []) + p.data
  }

  function HLSerialize(cs: Checksums, p: HLPacket): (r: Bytes)
    ensures r == LittleEndian(cs.crc16(HLBody(p)), 2) + HLBody(p)
  {
    var body := HLBody(p);
    LittleEndian(cs.crc16(body), 2) + body
  }

  /** HLPacket.length: the serialised length, crc included. The uint16_t
      it is wrapped in raises ValueError from 65536 on. */
  function HLLength(p: HLPacket): Result<uint16> {
    var n := 2 + |HLBody(p)|;
    if n < P16 then Ok(n) else Err(ValueError)
  }

  lemma HLLengthIsSerialisedLength(cs: Checksums, p: HLPacket)
    requires HLLength(p).Ok?
    ensures HLLength(p).value == |HLSerialize(cs, p)|
  {
  }

  function HLDeserialize(cs: Checksums, data: Bytes): (r: Result<HLPacket>)
    ensures |data| >= 2 && FromLittleEndian(data[..2]) != cs.crc16(data[2..]) ==> r == Err(InvalidFrame)
    ensures r.Ok? ==> r.value.header.Some?
    ensures r.Ok? ==> |data| >= 6 && data == LittleEndian(cs.crc16(data[2..]), 2)
                        + LittleEndian(r.value.header.value, 4) + r.value.data
  {
    var (check, rest) :- DecodeInt(UInt16, data);
    if check != cs.crc16(rest) then Err(InvalidFrame)
    else
      var (header, payload) :- DecodeInt(UInt32, rest);
      LittleEndianOfFromLittleEndian(data[..2]);
      LittleEndianOfFromLittleEndian(rest[..4]);
      assert data == data[..2] + rest[..4] + payload;
      Ok(HLPacket(Some(header), payload))
  }

  /** HLPacket round trip, whenever a header is written. */
  lemma HLRoundTrip(cs: Checksums, p: HLPacket)
    requires HeaderWritten(p)
    ensures HLDeserialize(cs, HLSerialize(cs, p)) == Ok(p)
  {
    var body := HLBody(p);
    var crc := LittleEndian(cs.crc16(body), 2);
    var s := crc + body;
    assert s[..2] == crc && s[2..] == body;
    FromLittleEndianOfLittleEndian(cs.crc16(body), 2);
    var hdr := LittleEndian(p.header.value, 4);
    assert body[..4] == hdr && body[4..] == p.data;
    FromLittleEndianOfLittleEndian(p.header.value, 4);
  }

  /** A header equal to 0 is dropped on the wire, so it never comes back. */
  lemma ZeroHeaderIsDropped(cs: Checksums, data: Bytes)
    ensures HLSerialize(cs, HLPacket(Some(0), data)) == HLSerialize(cs, HLPacket(None, data))
    ensures HLDeserialize(cs, HLSerialize(cs, HLPacket(Some(0), data))) != Ok(HLPacket(Some(0), data))
  {
    var s := HLSerialize(cs, HLPacket(Some(0), data));
    var r := HLDeserialize(cs, s);
    if r.Ok? {
      assert |s| == 2 + |data|;
      assert |s| == 6 + |r.value.data|;
    }
  }

  // ------------------------------------------------------------------ Frame

  datatype Frame = Frame(ll: LLHeader, hl: Option<HLPacket>)

  function FrameSerialize(cs: Checksums, f: Frame): Bytes {
    if f.hl.None? then LLSerialize(f.ll) else LLSerialize(f.ll) + HLSerialize(cs, f.hl.value)
  }

  /** Python's clamped, negative-aware slice bound for a sequence of length `len`. */
  function SliceIndex(n: int, len: nat): (r: nat)
    ensures r <= len
  {
    if n >= 0 then (if n <= len then n else len)
    else if len + n >= 0 then len + n else 0
  }

  /** `s[:n]` */
  function Take(s: Bytes, n: int): Bytes { s[..SliceIndex(n, |s|)] }

  /** `s[n:]` */
  function Drop(s: Bytes, n: int): Bytes { s[SliceIndex(n, |s|)..] }

  lemma TakeDrop(s: Bytes, n: int)
    ensures Take(s, n) + Drop(s, n) == s
  {
  }

  /** Frame.deserialize. */
  function FrameDeserialize(cs: Checksums, data: Bytes): (r: Result<(Frame, Bytes)>)
    ensures |data| < 7 ==> r == Err(ValueError)
    ensures r.Ok? ==> LLSerialize(r.value.0.ll) == data[..7]
    ensures r.Ok? ==> SignatureOf(r.value.0.ll) == FrameSignature && ChecksumOk(cs, r.value.0.ll)
    ensures r.Ok? ==> (r.value.0.hl.None? <==> HasFlag(Flags(r.value.0.ll), IsAck))
    ensures r.Ok? && r.value.0.hl.None? ==> r.value.1 == data[7..]
    ensures r.Ok? && r.value.0.hl.Some? ==> r.value.1 == Drop(data[7..], Size(r.value.0.ll) - 5)
  {
    var (h, rest) :- LLDeserialize(data);
    if SignatureOf(h) != FrameSignature then Err(InvalidFrame)
    else if !ChecksumOk(cs, h) then Err(InvalidFrame)
    else if HasFlag(Flags(h), IsAck) then Ok((Frame(h, None), rest))
    else
      var length := Size(h) - 5;
      var payload, rest' := Take(rest, length), Drop(rest, length);
      if HasFlag(Flags(h), FirstFrag) then
        var p :- HLDeserialize(cs, payload);
        Ok((Frame(h, Some(p)), rest'))
      else
        Ok((Frame(h, Some(HLPacket(None, payload))), rest'))
  }

  /** A whole-packet frame as it is sent: correct signature and checksum,
      FirstFrag set, not an ACK, and a size that counts the packet. */
  predicate SendableFirst(cs: Checksums, f: Frame) {
    SignatureOf(f.ll) == FrameSignature && ChecksumOk(cs, f.ll)
    && !HasFlag(Flags(f.ll), IsAck) && HasFlag(Flags(f.ll), FirstFrag)
    && f.hl.Some? && HeaderWritten(f.hl.value)
    && Size(f.ll) == |HLSerialize(cs, f.hl.value)| + 5
  }

  lemma LLRoundTrip(h: LLHeader, rest: Bytes)
    ensures LLDeserialize(LLSerialize(h) + rest) == Ok((h, rest))
  {
    var b := LLSerialize(h);
    assert (b + rest)[..7] == b && (b + rest)[7..] == rest;
    FromLittleEndianOfLittleEndian(h, 7);
  }

  /** Frame round trip: a received frame is the frame that was sent, and the
      bytes after it are returned untouched. */
  lemma FrameRoundTrip(cs: Checksums, f: Frame, rest: Bytes)
    requires SendableFirst(cs, f)
    ensures FrameDeserialize(cs, FrameSerialize(cs, f) + rest) == Ok((f, rest))
  {
    var p := f.hl.value;
    var hs := HLSerialize(cs, p);
    var data := LLSerialize(f.ll) + hs + rest;
    assert FrameSerialize(cs, f) + rest == LLSerialize(f.ll) + (hs + rest);
    LLRoundTrip(f.ll, hs + rest);
    assert Take(hs + rest, Size(f.ll) - 5) == hs;
    assert Drop(hs + rest, Size(f.ll) - 5) == rest;
    HLRoundTrip(cs, p);
  }

  /** A fragment other than the first crosses the wire with its own CRC16,
      and Frame.deserialize keeps those two bytes at the front of the data. */
  lemma WireFragmentKeepsCrc(cs: Checksums, f: Frame, rest: Bytes)
    requires SignatureOf(f.ll) == FrameSignature && ChecksumOk(cs, f.ll)
    requires !HasFlag(Flags(f.ll), IsAck) && !HasFlag(Flags(f.ll), FirstFrag)
    requires f.hl.Some? && f.hl.value.header.None?
    requires Size(f.ll) == |HLSerialize(cs, f.hl.value)| + 5
    ensures FrameDeserialize(cs, FrameSerialize(cs, f) + rest)
         == Ok((Frame(f.ll, Some(HLPacket(None, HLSerialize(cs, f.hl.value)))), rest))
    ensures HLSerialize(cs, f.hl.value) != f.hl.value.data
  {
    var hs := HLSerialize(cs, f.hl.value);
    assert FrameSerialize(cs, f) + rest == LLSerialize(f.ll) + (hs + rest);
    LLRoundTrip(f.ll, hs + rest);
    assert Take(hs + rest, Size(f.ll) - 5) == hs;
    assert Drop(hs + rest, Size(f.ll) - 5) == rest;
  }

  // -------------------------------------------------------------------- ACK

  function AckFlags(ackSeq: nat, retransmit: bool): (r: byte)
    requires ackSeq < 4
    ensures r == ackSeq * 16 + 1 + (if retransmit then 2 else 0)
    ensures HasFlag(r, IsAck) && AckSeqOf(r) == ackSeq
    ensures HasFlag(r, Retransmit) <==> retransmit
    ensures !HasFlag(r, FirstFrag) && !HasFlag(r, LastFrag)
  {
    AckFlagsValue(ackSeq, retransmit);
    AckByteFlags(ackSeq, retransmit);
    var flag := BitOr(ackSeq * 16, IsAck);
    if retransmit then BitOr(flag, Retransmit) else flag
  }

  /** The ACK flag byte as a number: the bits do not overlap. */
  lemma AckFlagsValue(ackSeq: nat, retransmit: bool)
    requires ackSeq < 4
    ensures var flag := BitOr(ackSeq * 16, IsAck);
      (if retransmit then BitOr(flag, Retransmit) else flag) == ackSeq * 16 + 1 + (if retransmit then 2 else 0)
  {
    if ackSeq == 0 {
      assert BitOr(0, 1) == 1 && BitOr(1, 2) == 3;
    } else if ackSeq == 1 {
      assert BitOr(16, 1) == 17 && BitOr(17, 2) == 19;
    } else if ackSeq == 2 {
      assert BitOr(32, 1) == 33 && BitOr(33, 2) == 35;
    } else {
      assert BitOr(48, 1) == 49 && BitOr(49, 2) == 51;
    }
  }

  /** The flags the eight ACK flag bytes have. */
  lemma AckByteFlags(ackSeq: nat, retransmit: bool)
    requires ackSeq < 4
    ensures var r: byte := ackSeq * 16 + 1 + (if retransmit then 2 else 0);
      HasFlag(r, IsAck) && AckSeqOf(r) == ackSeq && (HasFlag(r, Retransmit) <==> retransmit) &&
      !HasFlag(r, FirstFrag) && !HasFlag(r, LastFrag)
  {
    if ackSeq == 0 {
      assert BitAnd(1, 2) == 0 && BitAnd(3, 2) == 2;
    } else if ackSeq == 1 {
      assert BitAnd(17, 2) == 0 && BitAnd(19, 2) == 2;
    } else if ackSeq == 2 {
      assert BitAnd(33, 2) == 0 && BitAnd(35, 2) == 2;
    } else {
      assert BitAnd(49, 2) == 0 && BitAnd(51, 2) == 2;
    }
  }

  /** The header with its crc8 computed over `serialize()[2:6]`. */
  function Sealed(cs: Checksums, h: LLHeader): (r: LLHeader)
    ensures ChecksumOk(cs, r)
    ensures r == WithCrc8(h, cs.crc8(ChecksumBytes(h)))
    ensures SignatureOf(r) == SignatureOf(h) && Size(r) == Size(h)
    ensures FrameType(r) == FrameType(h) && Flags(r) == Flags(h)
  {
    var r := WithCrc8(h, cs.crc8(ChecksumBytes(h)));
    assert ChecksumBytes(r) == ChecksumBytes(h);
    r
  }

  /** Frame.ack: an ACK for `ackSeq`, with its checksum computed. */
  function Ack(cs: Checksums, ackSeq: nat, retransmit: bool): (r: Frame)
    requires ackSeq < 4
    ensures r.hl.None? && SignatureOf(r.ll) == FrameSignature && ChecksumOk(cs, r.ll)
    ensures Size(r.ll) == 5 && FrameType(r.ll) == ApiHlType
    ensures HasFlag(Flags(r.ll), IsAck) && AckSeqOf(Flags(r.ll)) == ackSeq
    ensures HasFlag(Flags(r.ll), Retransmit) <==> retransmit
  {
    Frame(Sealed(cs, WithFlags(BaseHeader(5), AckFlags(ackSeq, retransmit))), None)
  }

  /** An ACK goes through Frame.deserialize unchanged. */
  lemma AckRoundTrip(cs: Checksums, ackSeq: nat, retransmit: bool, rest: Bytes)
    requires ackSeq < 4
    ensures FrameDeserialize(cs, FrameSerialize(cs, Ack(cs, ackSeq, retransmit)) + rest)
         == Ok((Ack(cs, ackSeq, retransmit), rest))
  {
    LLRoundTrip(Ack(cs, ackSeq, retransmit).ll, rest);
  }

  // -------------------------------------------------------- fragmentation

  /** count_fragments: `ceil(len(body) / 247)` written as Python's
      `-(-n // 247)` (Dafny's `/` floors for a positive divisor too). */
  function CountFragments(p: HLPacket): (r: nat)
    ensures (r as int) * LLBodySizeMax >= |HLBody(p)|
    ensures r > 0 ==> (r - 1) * LLBodySizeMax < |HLBody(p)|
  {
    var n := |HLBody(p)|;
    -((-n) / LLBodySizeMax)
  }

  /** `total_size % 247 or 247` */
  function FirstFragSize(total: nat): (r: nat)
    ensures 1 <= r <= LLBodySizeMax
  {
    if total % LLBodySizeMax != 0 then total % LLBodySizeMax else LLBodySizeMax
  }

  /** _create_first_frag */
  function FirstFragment(p: HLPacket, size: nat): Frame {
    Frame(WithFlags(BaseHeader(size + 7), FirstFrag), Some(HLPacket(p.header, Take(p.data, size as int - 4))))
  }

  /** _create_last_frag */
  function LastFragment(ser: Bytes): Frame {
    Frame(WithFlags(BaseHeader(LLBodySizeMax + 7), LastFrag), Some(HLPacket(None, Drop(ser, -(LLBodySizeMax as int)))))
  }

  /** _create_frag: the flags are never set, so they stay 0. */
  function MiddleFragment(idx: nat, ser: Bytes): Frame {
    Frame(BaseHeader(LLBodySizeMax + 7), Some(HLPacket(None, Drop(Take(ser, idx + LLBodySizeMax), idx))))
  }

  /** Fragment number `k` (1-based) of a packet that needs `n >= 2` of them. */
  function FragmentAt(p: HLPacket, n: nat, k: int): (r: Frame)
    ensures r.hl.Some?
  {
    var ser := HLBody(p);
    var first := FirstFragSize(|ser|);
    if k <= 1 then FirstFragment(p, first)
    else if k == n then LastFragment(ser)
    else MiddleFragment(first + (k - 2) * LLBodySizeMax, ser)
  }

  /** What handle_tx_fragmentation returns. */
  function TxFragments(f: Frame): Result<seq<Frame>> {
    if f.hl.None? then Err(AttributeError)
    else
      var n := CountFragments(f.hl.value);
      if n <= 1 then Ok([f]) else Ok(seq(n, i => FragmentAt(f.hl.value, n, i + 1)))
  }

  method HandleTxFragmentation(f: Frame) returns (r: Result<seq<Frame>>)
    ensures r == TxFragments(f)
  {
    if f.hl.None? {
      return Err(AttributeError);
    }
    var p := f.hl.value;
    var n := CountFragments(p);
    if n <= 1 {
      return Ok([f]);
    }
    var ser := HLBody(p);
    var first := FirstFragSize(|ser|);
    var fragments: seq<Frame> := [];
    var k := 1;
    while k <= n
      invariant 1 <= k <= n + 1
      invariant fragments == seq(k - 1, i => FragmentAt(p, n, i + 1))
    {
      var frag;
      if k == 1 {
        frag := FirstFragment(p, first);
      } else if k == n {
        frag := LastFragment(ser);
      } else {
        var idx := first + (k - 2) * LLBodySizeMax;
        frag := MiddleFragment(idx, ser);
      }
      fragments := fragments + [frag];
      k := k + 1;
    }
    return Ok(fragments);
  }

  /** A packet that needs `n` fragments has `first + (n - 1) * 247` body bytes. */
  lemma FragmentArithmetic(total: nat, n: nat)
    requires n * LLBodySizeMax >= total && n >= 1 && (n - 1) * LLBodySizeMax < total
    ensures total == FirstFragSize(total) + (n - 1) * LLBodySizeMax
  {
    var first := FirstFragSize(total);
    var q := total / LLBodySizeMax;
    if total % LLBodySizeMax == 0 {
      assert total == q * LLBodySizeMax;
      assert q == n;
    } else {
      assert total == q * LLBodySizeMax + first;
      assert q == n - 1;
    }
  }

  /** Fragment number `k` of a packet split into `n >= 2` pieces. */
  lemma FragmentAtShape(p: HLPacket, n: nat, k: nat)
    requires CountFragments(p) == n && n >= 2 && 1 <= k <= n
    ensures var r := FragmentAt(p, n, k);
      var ser := HLBody(p);
      var first := FirstFragSize(|ser|);
      SignatureOf(r.ll) == FrameSignature && FrameType(r.ll) == ApiHlType &&
      (k == 1 ==> Flags(r.ll) == FirstFrag && Size(r.ll) == first + 7
                  && r.hl.value == HLPacket(p.header, Take(p.data, first as int - 4))) &&
      (1 < k < n ==> Flags(r.ll) == 0 && Size(r.ll) == LLBodySizeMax + 7
                     && r.hl.value == HLPacket(None, ser[first + (k - 2) * LLBodySizeMax .. first + (k - 1) * LLBodySizeMax])) &&
      (k == n ==> Flags(r.ll) == LastFrag && Size(r.ll) == LLBodySizeMax + 7
                  && r.hl.value == HLPacket(None, ser[|ser| - LLBodySizeMax..]))
  {
    var ser := HLBody(p);
    var first := FirstFragSize(|ser|);
    FragmentArithmetic(|ser|, n);
    if 1 < k < n {
      var idx := first + (k - 2) * LLBodySizeMax;
      assert (k - 1) * LLBodySizeMax <= (n - 1) * LLBodySizeMax;
      assert idx + LLBodySizeMax == first + (k - 1) * LLBodySizeMax;
      assert Take(ser, idx + LLBodySizeMax) == ser[..idx + LLBodySizeMax];
      assert Drop(ser[..idx + LLBodySizeMax], idx) == ser[idx..idx + LLBodySizeMax];
    }
  }

  /** The shape of a split packet: the first fragment keeps the header and
      has FirstFrag only; the middle ones have no flags; the last one has
      LastFrag only; every fragment but the first carries 247 raw bytes. */
  lemma TxFragmentsShape(f: Frame)
    requires f.hl.Some? && CountFragments(f.hl.value) >= 2
    ensures var fs := TxFragments(f).value;
      var p := f.hl.value;
      var ser := HLBody(p);
      var first := FirstFragSize(|ser|);
      |fs| == CountFragments(p) &&
      (forall k :: 0 <= k < |fs| ==>
         (SignatureOf(fs[k].ll) == FrameSignature && FrameType(fs[k].ll) == ApiHlType && fs[k].hl.Some?)) &&
      Flags(fs[0].ll) == FirstFrag && Size(fs[0].ll) == first + 7 &&
      fs[0].hl.value == HLPacket(p.header, Take(p.data, first as int - 4)) &&
      (forall k :: 1 <= k < |fs| - 1 ==>
         (Flags(fs[k].ll) == 0 && Size(fs[k].ll) == LLBodySizeMax + 7 && fs[k].hl.value.header.None?
          && fs[k].hl.value.data == ser[first + (k - 1) * LLBodySizeMax .. first + k * LLBodySizeMax])) &&
      Flags(fs[|fs| - 1].ll) == LastFrag && Size(fs[|fs| - 1].ll) == LLBodySizeMax + 7 &&
      fs[|fs| - 1].hl.value == HLPacket(None, ser[|ser| - LLBodySizeMax..])
  {
    var p := f.hl.value;
    var n := CountFragments(p);
    var fs := TxFragments(f).value;
    forall k | 1 <= k <= n {
      FragmentAtShape(p, n, k);
    }
  }

  // ------------------------------------------------------------ reassembly

  /** The bodies of the fragments, concatenated: `data += serialize()[2:]`. */
  function RxBody(cs: Checksums, frags: seq<Frame>): Result<Bytes> {
    if |frags| == 0 then Ok([])
    else if frags[0].hl.None? then Err(AttributeError)
    else
      var tail :- RxBody(cs, frags[1..]);
      Ok(HLSerialize(cs, frags[0].hl.value)[2..] + tail)
  }

  /** handle_rx_fragmentation as a value. */
  function RxMerge(cs: Checksums, frags: seq<Frame>): Result<Frame> {
    var body :- RxBody(cs, frags);
    var data := LittleEndian(cs.crc16(body), 2) + body;
    var ll := WithFlags(BaseHeader(|data| + 5), BitOr(FirstFrag, LastFrag));
    var p :- HLDeserialize(cs, data);
    Ok(Frame(ll, Some(p)))
  }

  function PrependBody(data: Bytes, r: Result<Bytes>): Result<Bytes> {
    if r.Ok? then Ok(data + r.value) else r
  }

  lemma PrependBodyTwice(a: Bytes, b: Bytes, r: Result<Bytes>)
    ensures PrependBody(a, PrependBody(b, r)) == PrependBody(a + b, r)
  {
    if r.Ok? {
      assert a + (b + r.value) == a + b + r.value;
    }
  }

  method HandleRxFragmentation(cs: Checksums, frags: seq<Frame>) returns (r: Result<Frame>)
    ensures r == RxMerge(cs, frags)
  {
    var data: Bytes := [];
    var i := 0;
    assert PrependBody(data, RxBody(cs, frags)) == RxBody(cs, frags) by {
      if RxBody(cs, frags).Ok? {
        assert [] + RxBody(cs, frags).value == RxBody(cs, frags).value;
      }
    }
    while i < |frags|
      invariant 0 <= i <= |frags|
      invariant RxBody(cs, frags) == PrependBody(data, RxBody(cs, frags[i..]))
    {
      if frags[i].hl.None? {
        return Err(AttributeError);
      }
      var piece := HLSerialize(cs, frags[i].hl.value)[2..];
      assert frags[i..][1..] == frags[i + 1..];
      RxBodyCons(cs, frags[i..]);
      PrependBodyTwice(data, piece, RxBody(cs, frags[i + 1..]));
      data := data + piece;
      i := i + 1;
    }
    assert data + [] == data;
    var crcd := LittleEndian(cs.crc16(data), 2) + data;
    var ll := WithFlags(BaseHeader(|crcd| + 5), BitOr(FirstFrag, LastFrag));
    var p := HLDeserialize(cs, crcd);
    if p.Err? {
      return Err(p.error);
    }
    return Ok(Frame(ll, Some(p.value)));
  }

  lemma BodyAfterCrc(cs: Checksums, p: HLPacket)
    ensures HLSerialize(cs, p)[2..] == HLBody(p)
  {
  }

  /** Fragment `k >= 2` carries the 247 body bytes from its start on; the
      last one ends with the body. */
  lemma LaterFragmentData(p: HLPacket, n: nat, k: nat)
    requires CountFragments(p) == n && n >= 2 && 2 <= k <= n
    ensures var ser := HLBody(p);
      var start := FirstFragSize(|ser|) + (k - 2) * LLBodySizeMax;
      start + LLBodySizeMax <= |ser| && (k == n ==> start + LLBodySizeMax == |ser|) &&
      FragmentAt(p, n, k).hl.value == HLPacket(None, ser[start..start + LLBodySizeMax])
  {
    var ser := HLBody(p);
    FragmentArithmetic(|ser|, n);
    FragmentAtShape(p, n, k);
    assert (k - 1) * LLBodySizeMax <= (n - 1) * LLBodySizeMax;
  }

  /** One step of RxBody. */
  lemma RxBodyCons(cs: Checksums, frags: seq<Frame>)
    requires |frags| > 0 && frags[0].hl.Some?
    ensures RxBody(cs, frags) == PrependBody(HLBody(frags[0].hl.value), RxBody(cs, frags[1..]))
  {
    BodyAfterCrc(cs, frags[0].hl.value);
  }

  /** A fragment carrying `ser[start..next]`, in front of fragments that
      carry `ser[next..]`. */
  lemma RxBodyStep(cs: Checksums, frags: seq<Frame>, ser: Bytes, start: nat, next: nat)
    requires |frags| > 0 && frags[0].hl.Some? && start <= next <= |ser|
    requires HLBody(frags[0].hl.value) == ser[start..next]
    requires RxBody(cs, frags[1..]) == Ok(ser[next..])
    ensures RxBody(cs, frags) == Ok(ser[start..])
  {
    RxBodyCons(cs, frags);
    assert ser[start..next] + ser[next..] == ser[start..];
  }

  /** The fragments from index `j >= 1` on carry the packet body from the
      start of fragment number `j + 1`. */
  lemma {:induction false} RxBodyOfTxSuffix(cs: Checksums, p: HLPacket, n: nat, frags: seq<Frame>, j: nat)
    requires CountFragments(p) == n && n >= 2 && |frags| == n && 1 <= j < n
    requires forall i :: 0 <= i < n ==> frags[i] == FragmentAt(p, n, i + 1)
    ensures var ser := HLBody(p);
      var start := FirstFragSize(|ser|) + (j - 1) * LLBodySizeMax;
      start <= |ser| && RxBody(cs, frags[j..]) == Ok(ser[start..])
    decreases n - j
  {
    var ser := HLBody(p);
    var start := FirstFragSize(|ser|) + (j - 1) * LLBodySizeMax;
    var next := start + LLBodySizeMax;
    LaterFragmentData(p, n, j + 1);
    assert frags[j..][0] == FragmentAt(p, n, j + 1);
    assert frags[j..][1..] == frags[j + 1..];
    if j + 1 == n {
      assert ser[next..] == [];
    } else {
      RxBodyOfTxSuffix(cs, p, n, frags, j + 1);
    }
    RxBodyStep(cs, frags[j..], ser, start, next);
  }

  /** The bytes the tx fragments of a packet carry, reassembled. */
  lemma RxBodyOfTx(cs: Checksums, f: Frame)
    requires f.hl.Some? && CountFragments(f.hl.value) >= 2
    ensures var p := f.hl.value;
      var ser := HLBody(p);
      var first := FirstFragSize(|ser|);
      RxBody(cs, TxFragments(f).value)
        == Ok(HLBody(HLPacket(p.header, Take(p.data, first as int - 4))) + ser[first..])
  {
    var p := f.hl.value;
    var n := CountFragments(p);
    var frags := TxFragments(f).value;
    RxBodyOfTxSuffix(cs, p, n, frags, 1);
    FragmentAtShape(p, n, 1);
    RxBodyCons(cs, frags);
  }

  /** Rx reassembly undoes tx fragmentation when the first fragment holds at
      least the 4 header bytes; a single-fragment packet comes back as is. */
  lemma ReassembleTx(cs: Checksums, f: Frame)
    requires f.hl.Some? && HeaderWritten(f.hl.value)
    requires CountFragments(f.hl.value) >= 2 ==> FirstFragSize(|HLBody(f.hl.value)|) >= 4
    ensures TxFragments(f).Ok?
    ensures RxMerge(cs, TxFragments(f).value).Ok?
    ensures RxMerge(cs, TxFragments(f).value).value.hl == f.hl
  {
    var p := f.hl.value;
    var ser := HLBody(p);
    var n := CountFragments(p);
    var frags := TxFragments(f).value;
    if n >= 2 {
      var first := FirstFragSize(|ser|);
      RxBodyOfTx(cs, f);
      FragmentArithmetic(|ser|, n);
      var head := HLPacket(p.header, Take(p.data, first as int - 4));
      assert Take(p.data, first as int - 4) == p.data[..first - 4];
      assert ser == LittleEndian(p.header.value, 4) + p.data;
      assert HLBody(head) == ser[..first];
      assert HLBody(head) + ser[first..] == ser;
    } else {
      assert frags == [f];
      assert frags[1..] == [];
      BodyAfterCrc(cs, p);
      assert HLBody(p) + [] == HLBody(p);
    }
    assert RxBody(cs, frags) == Ok(ser);
    HLRoundTrip(cs, p);
  }

  /** With a first fragment of 1 to 3 bytes, `data[:first - 4]` counts from
      the end, so the first fragment repeats almost all the data and the
      reassembled body is longer than the original. */
  lemma ShortFirstFragmentBreaksReassembly(cs: Checksums, f: Frame)
    requires f.hl.Some? && HeaderWritten(f.hl.value) && CountFragments(f.hl.value) >= 2
    requires FirstFragSize(|HLBody(f.hl.value)|) < 4
    ensures RxBody(cs, TxFragments(f).value).Ok?
    ensures |RxBody(cs, TxFragments(f).value).value| == |HLBody(f.hl.value)| + |f.hl.value.data|
    ensures RxMerge(cs, TxFragments(f).value).Ok? ==> RxMerge(cs, TxFragments(f).value).value.hl != f.hl
  {
    var p := f.hl.value;
    var ser := HLBody(p);
    var first := FirstFragSize(|ser|);
    var n := CountFragments(p);
    FragmentArithmetic(|ser|, n);
    RxBodyOfTx(cs, f);
    var head := HLPacket(p.header, Take(p.data, first as int - 4));
    assert |Take(p.data, first as int - 4)| == |p.data| + first - 4;
    var body := RxBody(cs, TxFragments(f).value).value;
    var m := RxMerge(cs, TxFragments(f).value);
    if m.Ok? {
      var data := LittleEndian(cs.crc16(body), 2) + body;
      assert data[2..] == body;
      assert |data| == 6 + |m.value.hl.value.data|;
    }
  }

  /** The fragment counts of packets with 247, 248 and 5 * 247 + 50 body bytes. */
  lemma FragmentCounts(h: HLHeader, d1: Bytes, d2: Bytes, d3: Bytes)
    requires h != 0 && |d1| == 243 && |d2| == 244 && |d3| == 5 * 247 + 46
    ensures CountFragments(HLPacket(Some(h), d1)) == 1
    ensures CountFragments(HLPacket(Some(h), d2)) == 2
    ensures CountFragments(HLPacket(Some(h), d3)) == 6
  {
  }
}
