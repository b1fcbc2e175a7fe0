/** The link layer of zigpy_zboss/uart.py: ZbossNcpProtocol keeps a receive
    buffer that grows with every chunk of serial data and is consumed one
    frame at a time from the front, resynchronising on the frame signature;
    it acknowledges every data frame and advances a stop-and-wait send
    counter on every matching ACK. The API the frames are handed to, the
    serial transport and the ACK event are reduced to what the protocol
    object records: the frames delivered, the byte strings written and
    whether the event was created and set. */
module Uart {
  import opened Wrappers
  import opened Basic
  import opened Headers
  import opened Frames

  /** `Frame.signature.serialize()`: 0xADDE, little-endian. */
  const SignatureBytes: Bytes := [0xDE, 0xAD]

  lemma SignatureBytesAreSignature()
    ensures LittleEndian(FrameSignature, 2) == SignatureBytes
  {
  }

  /** The signature starts at index `k` of `buf`. */
  predicate SignatureAt(buf: Bytes, k: nat) {
    k + 2 <= |buf| && buf[k] == 0xDE && buf[k + 1] == 0xAD
  }

  // ------------------------------------------------------------ extraction

  /** ZbossNcpProtocol._extract_frame, on the buffer's value: the frame at
      the front of `buf` and what follows it, or the exception raised. */
  function ExtractOne(cs: Checksums, buf: Bytes): Result<(Frame, Bytes)> {
    if |buf| < 7 then Err(BufferTooShort)
    else if !SignatureAt(buf, 0) then Err(InvalidFrame)
    else if |buf| < FromLittleEndian(buf[2..4]) + 2 then Err(BufferTooShort)
    else if buf[4] != ApiHlType then Err(InvalidFrame)
    else FrameDeserialize(cs, buf)
  }

  /** The checks _extract_frame makes, in their order, and what a success
      leaves: the frame Frame.deserialize decodes, of the ZBOSS NCP API HL
      type, and the bytes after it, unchanged. */
  lemma ExtractOneSpec(cs: Checksums, buf: Bytes)
    ensures var r := ExtractOne(cs, buf);
      && (|buf| < 7 ==> r == Err(BufferTooShort))
      && (|buf| >= 7 && !SignatureAt(buf, 0) ==> r == Err(InvalidFrame))
      && (|buf| >= 7 && SignatureAt(buf, 0) && |buf| < FromLittleEndian(buf[2..4]) + 2 ==> r == Err(BufferTooShort))
      && (|buf| >= 7 && SignatureAt(buf, 0) && |buf| >= FromLittleEndian(buf[2..4]) + 2 && buf[4] != ApiHlType ==> r == Err(InvalidFrame))
      && (r.Ok? ==> FrameDeserialize(cs, buf) == r && FrameType(r.value.0.ll) == ApiHlType)
      && (r.Err? ==> r.error in {BufferTooShort, InvalidFrame, ValueError})
  {
    var r := ExtractOne(cs, buf);
    if r.Ok? {
      LLHeaderBytes(r.value.0.ll);
    }
  }

  /** A success consumes the seven header bytes at least, and leaves a
      suffix of the buffer. */
  lemma ExtractShrinks(cs: Checksums, buf: Bytes)
    requires ExtractOne(cs, buf).Ok?
    ensures var rest := ExtractOne(cs, buf).value.1;
      |rest| <= |buf| - 7 && rest == buf[|buf| - |rest|..]
  {
  }

  /** `self._buffer.find(signature, from)`: the first index at or after
      `from` where the signature starts, or -1. */
  function Find(buf: Bytes, from: nat): (r: int)
    ensures r == -1 || (from <= r && SignatureAt(buf, r))
    ensures r == -1 ==> forall k :: from <= k ==> !SignatureAt(buf, k)
    ensures r >= 0 ==> forall k :: from <= k < r ==> !SignatureAt(buf, k)
    decreases |buf| - from
  {
    if from + 2 > |buf| then -1
    else if SignatureAt(buf, from) then from
    else Find(buf, from + 1)
  }

  /** The `except InvalidFrame` branch of _extract_frames: drop everything
      before the next signature after the first byte, or everything. */
  function Resync(buf: Bytes): (r: Bytes)
    requires |buf| > 0
    ensures |r| < |buf| && r == buf[|buf| - |r|..]
    ensures r == [] || SignatureAt(r, 0)
    ensures forall k :: 1 <= k < |buf| - |r| ==> !SignatureAt(buf, k)
  {
    var i := Find(buf, 1);
    if i < 0 then [] else buf[i..]
  }

  // -------------------------------------------------------- receive state

  /** The protocol object's state as a value. */
  datatype Link = Link(
    buffer: Bytes,
    ackSeq: nat,          // _ack_seq: the packet sequence of the last data frame
    packSeq: nat,         // _pack_seq: the send counter the NCP must acknowledge
    event: Option<bool>,  // _ack_received_event: None before the first send, else whether set
    api: bool,            // _api is not None
    transport: bool,      // _transport is not None
    written: seq<Bytes>,  // every byte string written to the transport
    delivered: seq<Frame> // every frame handed to api.frame_received
  )

  /** Both counters stay two-bit values. */
  predicate ValidLink(l: Link) {
    l.ackSeq < 4 && l.packSeq < 4
  }

  /** ZbossNcpProtocol.write. */
  function WriteBytes(l: Link, data: Bytes): Link {
    if l.transport then l.(written := l.written + [data]) else l
  }

  /** What one statement sequence of data_received produced: the new state,
      and the exception that escaped it, if any. */
  datatype Outcome = Outcome(link: Link, raised: Option<Error>)

  /** The body of the `for frame in self._extract_frames()` loop. An ACK
      for the current send counter advances it and sets the event (an
      AttributeError escapes when no send ever created it); any other ACK
      is ignored. A data frame records its packet sequence, is acknowledged
      and then handed to the API; whatever the API raises is swallowed,
      and with the API gone the AttributeError is swallowed too. */
  function OnFrame(cs: Checksums, l: Link, f: Frame): (o: Outcome)
    requires ValidLink(l)
    ensures ValidLink(o.link) && o.link.buffer == l.buffer
  {
    var flags := Flags(f.ll);
    if HasFlag(flags, IsAck) then
      if AckSeqOf(flags) == l.packSeq then
        var l' := l.(packSeq := l.packSeq % 3 + 1);
        if l.event.None? then Outcome(l', Some(AttributeError))
        else Outcome(l'.(event := Some(true)), None)
      else Outcome(l, None)
    else
      var l1 := l.(ackSeq := PacketSeqOf(flags));
      var l2 := WriteBytes(l1, FrameSerialize(cs, Ack(cs, l1.ackSeq, false)));
      Outcome(if f.hl.Some? && l.api then l2.(delivered := l2.delivered + [f]) else l2, None)
  }

  /** The effect of one frame: ACKs touch only the send counter and the
      event, data frames only the ACK sequence, the writes and the
      deliveries, and only an ACK with no event ever raises. */
  lemma OnFrameSpec(cs: Checksums, l: Link, f: Frame)
    requires ValidLink(l)
    ensures var o := OnFrame(cs, l, f);
      && o.link.api == l.api && o.link.transport == l.transport
      && (HasFlag(Flags(f.ll), IsAck) ==>
            o.link.written == l.written && o.link.delivered == l.delivered && o.link.ackSeq == l.ackSeq)
      && (HasFlag(Flags(f.ll), IsAck) && AckSeqOf(Flags(f.ll)) == l.packSeq ==>
            o.link.packSeq == l.packSeq % 3 + 1 && (o.raised.Some? <==> l.event.None?)
            && (l.event.Some? ==> o.link.event == Some(true)))
      && (HasFlag(Flags(f.ll), IsAck) && AckSeqOf(Flags(f.ll)) != l.packSeq ==> o == Outcome(l, None))
      && (!HasFlag(Flags(f.ll), IsAck) ==>
            && o.raised.None? && o.link.packSeq == l.packSeq && o.link.event == l.event
            && o.link.ackSeq == PacketSeqOf(Flags(f.ll))
            && o.link.written == l.written + (if l.transport then [FrameSerialize(cs, Ack(cs, o.link.ackSeq, false))] else [])
            && o.link.delivered == l.delivered + (if f.hl.Some? && l.api then [f] else []))
  {
  }

  /** _extract_frames driving the loop of data_received over the current
      buffer. It stops when the buffer is too short or an exception escapes;
      an invalid frame makes it resynchronise and go on. Every round
      consumes bytes, so it terminates. */
  function Process(cs: Checksums, l: Link): (o: Outcome)
    requires ValidLink(l)
    ensures ValidLink(o.link)
    decreases |l.buffer|
  {
    match ExtractOne(cs, l.buffer)
    case Ok((f, rest)) =>
      ExtractShrinks(cs, l.buffer);
      var o := OnFrame(cs, l.(buffer := rest), f);
      if o.raised.Some? then o else Process(cs, o.link)
    case Err(e) =>
      if e == BufferTooShort then Outcome(l, None)
      else if e == InvalidFrame then Process(cs, l.(buffer := Resync(l.buffer)))
      else Outcome(l, Some(e))
  }

  /** data_received: the chunk is appended to the buffer, then processed. */
  function Receive(cs: Checksums, l: Link, data: Bytes): Outcome
    requires ValidLink(l)
  {
    Process(cs, l.(buffer := l.buffer + data))
  }

  /** One round of Process after a decoded frame. */
  lemma ProcessFrame(cs: Checksums, l: Link, f: Frame, rest: Bytes)
    requires ValidLink(l) && ExtractOne(cs, l.buffer) == Ok((f, rest))
    ensures var o := OnFrame(cs, l.(buffer := rest), f);
      Process(cs, l) == if o.raised.Some? then o else Process(cs, o.link)
  {
  }

  /** One round of Process after an invalid frame. */
  lemma ProcessInvalid(cs: Checksums, l: Link)
    requires ValidLink(l) && ExtractOne(cs, l.buffer) == Err(InvalidFrame)
    ensures |l.buffer| > 0 && Process(cs, l) == Process(cs, l.(buffer := Resync(l.buffer)))
  {
  }

  /** Process ends at once on any other exception. */
  lemma ProcessStops(cs: Checksums, l: Link)
    requires ValidLink(l) && ExtractOne(cs, l.buffer).Err? && ExtractOne(cs, l.buffer).error != InvalidFrame
    ensures var e := ExtractOne(cs, l.buffer).error;
      Process(cs, l) == Outcome(l, if e == BufferTooShort then None else Some(e))
  {
  }

  /** Processing only drops bytes from the front of the buffer, leaves the
      API and transport alone, and without an escaping exception stops only
      where no complete frame is left. */
  lemma {:induction false} ProcessSpec(cs: Checksums, l: Link)
    requires ValidLink(l)
    ensures var o := Process(cs, l);
      && o.link.api == l.api && o.link.transport == l.transport
      && |o.link.buffer| <= |l.buffer| && o.link.buffer == l.buffer[|l.buffer| - |o.link.buffer|..]
      && (o.raised.None? ==> ExtractOne(cs, o.link.buffer) == Err(BufferTooShort))
    decreases |l.buffer|
  {
    var r := ExtractOne(cs, l.buffer);
    if r.Ok? {
      var (f, rest) := r.value;
      ExtractShrinks(cs, l.buffer);
      ProcessFrame(cs, l, f, rest);
      OnFrameSpec(cs, l.(buffer := rest), f);
      var o := OnFrame(cs, l.(buffer := rest), f);
      if o.raised.None? {
        ProcessSpec(cs, o.link);
      }
    } else if r.error == InvalidFrame {
      ProcessInvalid(cs, l);
      ProcessSpec(cs, l.(buffer := Resync(l.buffer)));
    } else {
      ProcessStops(cs, l);
    }
  }

  /** _set_frame_flag: the send counter, shifted into the packet sequence
      bits, is ORed into the frame's flags. */
  function SetFrameFlag(f: Frame, packSeq: nat): (r: Frame)
    requires packSeq < 4
    ensures r.hl == f.hl && Flags(r.ll) == BitOr(packSeq * 4, Flags(f.ll))
    ensures SignatureOf(r.ll) == SignatureOf(f.ll) && Size(r.ll) == Size(f.ll)
    ensures FrameType(r.ll) == FrameType(f.ll) && Crc8Of(r.ll) == Crc8Of(f.ll)
  {
    f.(ll := WithFlags(f.ll, BitOr(packSeq * 4, Flags(f.ll))))
  }

  /** _ll_checksum: the crc8 recomputed over the header bytes 2..5. */
  function LlChecksum(cs: Checksums, f: Frame): (r: Frame)
    ensures ChecksumOk(cs, r.ll) && r.hl == f.hl
    ensures SignatureOf(r.ll) == SignatureOf(f.ll) && Size(r.ll) == Size(f.ll)
    ensures FrameType(r.ll) == FrameType(f.ll) && Flags(r.ll) == Flags(f.ll)
  {
    f.(ll := Sealed(cs, f.ll))
  }

  /** The frame `send` writes: flagged with the send counter, then sealed. */
  function Outgoing(cs: Checksums, f: Frame, packSeq: nat): Frame
    requires packSeq < 4
  {
    LlChecksum(cs, SetFrameFlag(f, packSeq))
  }

  // ------------------------------------------------------------- the class

  class Protocol {
    const cs: Checksums
    var buffer: Bytes
    var ackSeq: nat
    var packSeq: nat
    var event: Option<bool>
    var api: bool
    var transport: bool
    var written: seq<Bytes>
    var delivered: seq<Frame>

    function State(): Link
      reads this
    {
      Link(buffer, ackSeq, packSeq, event, api, transport, written, delivered)
    }

    predicate Valid()
      reads this
    {
      ValidLink(State())
    }

    /** `__init__` followed by `connection_made`. */
    constructor(cs: Checksums, transport: bool)
      ensures this.cs == cs && Valid()
      ensures State() == Link([], 0, 0, None, true, transport, [], [])
    {
      this.cs := cs;
      buffer := [];
      ackSeq := 0;
      packSeq := 0;
      event := None;
      api := true;
      this.transport := transport;
      written := [];
      delivered := [];
    }

    /** close: the API is dropped and both counters restart at 0. */
    method Close()
      modifies this
      ensures Valid()
      ensures State() == old(State()).(api := false, ackSeq := 0, packSeq := 0)
    {
      api := false;
      ackSeq := 0;
      packSeq := 0;
    }

    /** write: nothing goes out without a transport. */
    method Write(data: Bytes)
      modifies this
      ensures State() == WriteBytes(old(State()), data)
    {
      if transport {
        written := written + [data];
      }
    }

    /** The sequential part of send: a fresh, unset ACK event, then the
      frame with the send counter and crc8 applied is written. Waiting for
      the ACK under a timeout is not modelled. */
    method Send(f: Frame)
      requires Valid()
      modifies this
      ensures Valid()
      ensures old(transport) ==> State() == old(WriteBytes(State().(event := Some(false)), FrameSerialize(cs, Outgoing(cs, f, packSeq))))
      ensures !old(transport) ==> State() == old(State())
    {
      if transport {
        event := Some(false);
        var g := SetFrameFlag(f, packSeq);
        g := LlChecksum(cs, g);
        Write(FrameSerialize(cs, g));
      }
    }

    /** _extract_frame: on success exactly the frame's bytes leave the front
      of the buffer; on any exception the buffer is untouched. */
    method ExtractFrame() returns (r: Result<Frame>)
      modifies this
      ensures ExtractOne(cs, old(buffer)).Ok? ==>
        r == Ok(ExtractOne(cs, old(buffer)).value.0)
        && State() == old(State()).(buffer := ExtractOne(cs, old(buffer)).value.1)
      ensures ExtractOne(cs, old(buffer)).Err? ==>
        r == Err(ExtractOne(cs, old(buffer)).error) && State() == old(State())
    {
      if |buffer| < 7 {
        return Err(BufferTooShort);
      }
      if buffer[0..2] != SignatureBytes {
        return Err(InvalidFrame);
      }
      var length := FromLittleEndian(buffer[2..4]);
      if |buffer| < length + 2 {
        return Err(BufferTooShort);
      }
      if buffer[4] != ApiHlType {
        return Err(InvalidFrame);
      }
      var d := FrameDeserialize(cs, buffer);
      if d.Err? {
        return Err(d.error);
      }
      var (frame, rest) := d.value;
      buffer := buffer[|buffer| - |rest|..];
      return Ok(frame);
    }

    /** The body of data_received's loop for one extracted frame. */
    method HandleFrame(frame: Frame) returns (raised: Option<Error>)
      requires Valid()
      modifies this
      ensures Valid()
      ensures Outcome(State(), raised) == OnFrame(cs, old(State()), frame)
    {
      var flags := Flags(frame.ll);
      if HasFlag(flags, IsAck) {
        if AckSeqOf(flags) == packSeq {
          packSeq := packSeq % 3 + 1;
          if event.None? {
            return Some(AttributeError);
          }
          event := Some(true);
        }
        return None;
      }
      ackSeq := PacketSeqOf(flags);
      Write(FrameSerialize(cs, Ack(cs, ackSeq, false)));
      if frame.hl.Some? && api {
        delivered := delivered + [frame];
      }
      return None;
    }

    /** data_received: the chunk is appended and every complete frame in
      the buffer is handled, resynchronising past invalid data; `raised` is
      the exception that escapes, if any. */
    method DataReceived(data: Bytes) returns (raised: Option<Error>)
      requires Valid()
      modifies this
      ensures Valid()
      ensures Outcome(State(), raised) == Receive(cs, old(State()), data)
    {
      buffer := buffer + data;
      ghost var target := Process(cs, State());
      while true
        invariant Valid() && Process(cs, State()) == target
        decreases |buffer|
      {
        ghost var before := State();
        var r := ExtractFrame();
        if r.Err? {
          if r.error == InvalidFrame {
            ProcessInvalid(cs, before);
            var i := Find(buffer, 1);
            if i < 0 {
              buffer := [];
            } else {
              buffer := buffer[i..];
            }
            assert State() == before.(buffer := Resync(before.buffer));
          } else {
            ProcessStops(cs, before);
            return if r.error == BufferTooShort then None else Some(r.error);
          }
        } else {
          ExtractShrinks(cs, before.buffer);
          ProcessFrame(cs, before, r.value, buffer);
          raised := HandleFrame(r.value);
          if raised.Some? {
            return;
          }
        }
      }
    }
  }

  // -------------------------------------------------------------- lemmas

  /** What a frame needs to be read back from the wire. */
  predicate WireReady(cs: Checksums, f: Frame) {
    SignatureOf(f.ll) == FrameSignature && ChecksumOk(cs, f.ll) && FrameType(f.ll) == ApiHlType
    && if HasFlag(Flags(f.ll), IsAck) then f.hl.None? && Size(f.ll) == 5 else SendableFirst(cs, f)
  }

  /** The size field of a serialised header, as _extract_frame reads it. */
  lemma SizeBytes(h: LLHeader, rest: Bytes)
    ensures var b := LLSerialize(h) + rest;
      SignatureAt(b, 0) <==> SignatureOf(h) == FrameSignature
    ensures FromLittleEndian((LLSerialize(h) + rest)[2..4]) == Size(h)
    ensures (LLSerialize(h) + rest)[4] == FrameType(h)
  {
    LLHeaderBytes(h);
    var b := LLSerialize(h) + rest;
    assert b[2..4][1..] == [b[3]];
  }

  /** A frame as its sender wrote it is extracted whole, whatever follows. */
  lemma ExtractWireFrame(cs: Checksums, f: Frame, rest: Bytes)
    requires WireReady(cs, f)
    ensures ExtractOne(cs, FrameSerialize(cs, f) + rest) == Ok((f, rest))
  {
    if HasFlag(Flags(f.ll), IsAck) {
      SizeBytes(f.ll, rest);
      LLRoundTrip(f.ll, rest);
    } else {
      var hs := HLSerialize(cs, f.hl.value);
      SizeBytes(f.ll, hs + rest);
      assert FrameSerialize(cs, f) + rest == LLSerialize(f.ll) + (hs + rest);
      FrameRoundTrip(cs, f, rest);
    }
  }

  /** A frame that has only partly arrived is never decoded. */
  lemma PartialFrameWaits(cs: Checksums, f: Frame, n: nat)
    requires WireReady(cs, f) && n < |FrameSerialize(cs, f)|
    ensures ExtractOne(cs, FrameSerialize(cs, f)[..n]) == Err(BufferTooShort)
  {
    var b := FrameSerialize(cs, f);
    if n >= 7 {
      SizeBytes(f.ll, b[7..]);
      assert b == LLSerialize(f.ll) + b[7..];
      assert b[..n][2..4] == b[2..4];
    }
  }

  /** A whole frame in an empty buffer is handled exactly once. */
  lemma WholeFrame(cs: Checksums, l: Link, f: Frame)
    requires ValidLink(l) && WireReady(cs, f)
    ensures Process(cs, l.(buffer := FrameSerialize(cs, f))) == OnFrame(cs, l.(buffer := []), f)
  {
    var b := FrameSerialize(cs, f);
    ExtractWireFrame(cs, f, []);
    assert b + [] == b;
  }

  /** A frame arriving in two chunks, split anywhere, has the same effect
      as the frame arriving at once: the first chunk only waits in the
      buffer. */
  lemma SplitDelivery(cs: Checksums, l: Link, f: Frame, n: nat)
    requires ValidLink(l) && l.buffer == [] && WireReady(cs, f)
    requires n < |FrameSerialize(cs, f)|
    ensures var b := FrameSerialize(cs, f);
      var first := Receive(cs, l, b[..n]);
      first == Outcome(l.(buffer := b[..n]), None)
      && Receive(cs, first.link, b[n..]) == Receive(cs, l, b)
  {
    var b := FrameSerialize(cs, f);
    assert l.buffer + b[..n] == b[..n];
    PartialFrameWaits(cs, f, n);
    ProcessStops(cs, l.(buffer := b[..n]));
    assert b[..n] + b[n..] == b;
    assert l.buffer + b == b;
  }

  /** Leading bytes in which no signature starts make the buffer invalid,
      and resynchronisation drops exactly them. */
  lemma GarbageResync(cs: Checksums, garbage: Bytes, f: Frame, rest: Bytes)
    requires WireReady(cs, f) && |garbage| > 0
    requires forall k :: 0 <= k < |garbage| ==> !SignatureAt(garbage + FrameSerialize(cs, f), k)
    ensures var buf := garbage + FrameSerialize(cs, f) + rest;
      ExtractOne(cs, buf) == Err(InvalidFrame) && Resync(buf) == FrameSerialize(cs, f) + rest
  {
    var b := FrameSerialize(cs, f);
    var buf := garbage + b + rest;
    SizeBytes(f.ll, b[7..] + rest);
    assert b + rest == LLSerialize(f.ll) + (b[7..] + rest);
    GarbageBeforeSignature(garbage, b, rest);
    InvalidAtFront(cs, buf);
    ResyncTo(buf, |garbage|);
    assert buf[|garbage|..] == b + rest;
  }

  /** A buffer of at least 7 bytes that does not start with the
      signature is invalid. */
  lemma InvalidAtFront(cs: Checksums, buf: Bytes)
    requires |buf| >= 7 && !SignatureAt(buf, 0)
    ensures ExtractOne(cs, buf) == Err(InvalidFrame)
  {
  }

  /** Resynchronisation keeps the buffer from the first signature after
      the first byte. */
  lemma ResyncTo(buf: Bytes, i: nat)
    requires 1 <= i && SignatureAt(buf, i)
    requires forall k :: 1 <= k < i ==> !SignatureAt(buf, k)
    ensures Resync(buf) == buf[i..]
  {
    assert Find(buf, 1) == i;
  }

  /** Appending bytes after the garbage and the frame adds no signature
      inside the garbage, and the frame's own signature follows it. */
  lemma GarbageBeforeSignature(garbage: Bytes, b: Bytes, rest: Bytes)
    requires |b| >= 2 && SignatureAt(b + rest, 0)
    requires forall k :: 0 <= k < |garbage| ==> !SignatureAt(garbage + b, k)
    ensures forall k :: 0 <= k < |garbage| ==> !SignatureAt(garbage + b + rest, k)
    ensures SignatureAt(garbage + b + rest, |garbage|)
  {
    var buf := garbage + b + rest;
    forall k | 0 <= k < |garbage|
      ensures !SignatureAt(buf, k)
    {
      assert !SignatureAt(garbage + b, k);
      assert (garbage + b)[k] == buf[k] && (garbage + b)[k + 1] == buf[k + 1];
    }
    assert buf[|garbage|] == (b + rest)[0] && buf[|garbage| + 1] == (b + rest)[1];
  }

  /** Garbage in which no signature starts is dropped before the frame. */
  lemma SkipsGarbage(cs: Checksums, l: Link, garbage: Bytes, f: Frame, rest: Bytes)
    requires ValidLink(l) && WireReady(cs, f) && |garbage| > 0
    requires forall k :: 0 <= k < |garbage| ==> !SignatureAt(garbage + FrameSerialize(cs, f), k)
    ensures Process(cs, l.(buffer := garbage + FrameSerialize(cs, f) + rest))
         == Process(cs, l.(buffer := FrameSerialize(cs, f) + rest))
  {
    GarbageResync(cs, garbage, f, rest);
    ProcessInvalid(cs, l.(buffer := garbage + FrameSerialize(cs, f) + rest));
  }

  /** A header whose crc8 does not match is dropped by resynchronisation. */
  lemma BadChecksumDropped(cs: Checksums, l: Link, buf: Bytes)
    requires ValidLink(l) && |buf| >= 7 && SignatureAt(buf, 0)
    requires |buf| >= FromLittleEndian(buf[2..4]) + 2 && buf[4] == ApiHlType
    requires !ChecksumOk(cs, FromLittleEndian(buf[..7]))
    ensures ExtractOne(cs, buf) == Err(InvalidFrame)
    ensures Process(cs, l.(buffer := buf)) == Process(cs, l.(buffer := Resync(buf)))
  {
  }

  /** A plain ValueError (a first fragment too short to hold a CRC16 and a
      header) escapes the resynchronising handler and leaves the buffer as
      it was, so every later chunk of data raises it again. */
  lemma ShortBodyStaysStuck(cs: Checksums, l: Link, data: Bytes)
    requires ValidLink(l) && ExtractOne(cs, l.buffer) == Err(ValueError)
    requires Size(FromLittleEndian(l.buffer[..7])) >= 5
    ensures ExtractOne(cs, l.buffer + data) == Err(ValueError)
    ensures Receive(cs, l, data) == Outcome(l.(buffer := l.buffer + data), Some(ValueError))
  {
    var buf := l.buffer;
    var b := buf + data;
    assert b[..7] == buf[..7] && b[2..4] == buf[2..4] && b[4] == buf[4];
    var h := FromLittleEndian(buf[..7]);
    assert b[7..] == buf[7..] + data;
    var n := Size(h) - 5;
    LittleEndianOfFromLittleEndian(buf[..7]);
    SizeBytes(h, buf[7..]);
    assert buf == LLSerialize(h) + buf[7..];
    assert Take(b[7..], n) == Take(buf[7..], n);
  }

  /** Such a frame exists: a FirstFrag frame of size 5, which carries no
      high-level bytes at all. */
  lemma ShortBodyExample(cs: Checksums)
    ensures var h := Sealed(cs, WithFlags(BaseHeader(5), FirstFrag));
      ExtractOne(cs, LLSerialize(h)) == Err(ValueError)
  {
    var h := Sealed(cs, WithFlags(BaseHeader(5), FirstFrag));
    assert BitAnd(FirstFrag, IsAck) == 0;
    assert BitAnd(FirstFrag, FirstFrag) != 0;
    SizeBytes(h, []);
    assert LLSerialize(h) + [] == LLSerialize(h);
    LLRoundTrip(h, []);
  }

  /** Sending then receiving the NCP's ACK for it advances the counter and
      sets the event, and nothing else is written or delivered. */
  lemma AckedSend(cs: Checksums, l: Link, f: Frame)
    requires ValidLink(l) && l.buffer == [] && l.transport
    ensures var sent := WriteBytes(l.(event := Some(false)), FrameSerialize(cs, Outgoing(cs, f, l.packSeq)));
      Receive(cs, sent, FrameSerialize(cs, Ack(cs, l.packSeq, false)))
        == Outcome(sent.(packSeq := l.packSeq % 3 + 1, event := Some(true)), None)
  {
    var sent := WriteBytes(l.(event := Some(false)), FrameSerialize(cs, Outgoing(cs, f, l.packSeq)));
    var a := Ack(cs, l.packSeq, false);
    assert WireReady(cs, a);
    WholeFrame(cs, sent, a);
    assert sent.buffer + FrameSerialize(cs, a) == FrameSerialize(cs, a);
  }

  /** Starting from 0 the send counter runs 1, 2, 3, 1, ...: it is 0 only
      before the first ACK and never 0 after it. */
  lemma PackSeqCycle(l: Link, f: Frame, cs: Checksums)
    requires ValidLink(l)
    requires HasFlag(Flags(f.ll), IsAck) && AckSeqOf(Flags(f.ll)) == l.packSeq
    ensures 1 <= OnFrame(cs, l, f).link.packSeq <= 3
    ensures l.packSeq > 0 ==> OnFrame(cs, l, f).link.packSeq == (if l.packSeq == 3 then 1 else l.packSeq + 1)
  {
  }

  /** A frame the API may be handed: one with a high-level packet that is
      not an ACK. */
  predicate DataFrame(f: Frame) {
    f.hl.Some? && !HasFlag(Flags(f.ll), IsAck)
  }

  /** One frame delivers at most itself, and only a data frame. */
  lemma OnFrameDelivers(cs: Checksums, l: Link, f: Frame)
    requires ValidLink(l)
    ensures var o := OnFrame(cs, l, f);
      && l.delivered <= o.link.delivered && l.written <= o.link.written
      && (o.link.delivered == l.delivered || (o.link.delivered == l.delivered + [f] && DataFrame(f)))
  {
    OnFrameSpec(cs, l, f);
  }

  /** Deliveries only grow, and by data frames alone. */
  predicate OnlyData(before: seq<Frame>, after: seq<Frame>) {
    before <= after && forall i :: |before| <= i < |after| ==> DataFrame(after[i])
  }

  lemma OnlyDataTrans(a: seq<Frame>, b: seq<Frame>, c: seq<Frame>)
    requires OnlyData(a, b) && OnlyData(b, c)
    ensures OnlyData(a, c)
  {
    forall i | |a| <= i < |c| ensures DataFrame(c[i]) {
      if i < |b| {
        assert c[i] == b[i];
      }
    }
  }

  /** Processing only ever hands on data frames: every frame delivered is a
      frame with a high-level packet and without the ACK flag, and writes
      are only ever added. */
  lemma {:induction false} OnlyDataDelivered(cs: Checksums, l: Link)
    requires ValidLink(l)
    ensures var o := Process(cs, l);
      OnlyData(l.delivered, o.link.delivered) && l.written <= o.link.written
    decreases |l.buffer|
  {
    var r := ExtractOne(cs, l.buffer);
    if r.Ok? {
      var (f, rest) := r.value;
      ExtractShrinks(cs, l.buffer);
      ProcessFrame(cs, l, f, rest);
      OnFrameDelivers(cs, l.(buffer := rest), f);
      var o := OnFrame(cs, l.(buffer := rest), f);
      assert OnlyData(l.delivered, o.link.delivered);
      if o.raised.None? {
        OnlyDataDelivered(cs, o.link);
        OnlyDataTrans(l.delivered, o.link.delivered, Process(cs, o.link).link.delivered);
      }
    } else if r.error == InvalidFrame {
      ProcessInvalid(cs, l);
      OnlyDataDelivered(cs, l.(buffer := Resync(l.buffer)));
    } else {
      ProcessStops(cs, l);
    }
  }
}
