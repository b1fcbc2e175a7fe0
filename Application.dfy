/** The small pure mappings of the zigpy application controller in
    zigbee/application.py: the transaction sequence number, the conversion of
    an outgoing zigpy packet into an APSDE-DATA request, the conversion of an
    APSDE-DATA indication into a zigpy packet, the reset filter and the
    byte order of the extended PAN ID. */
module Application {
  import opened Wrappers
  import opened Basic

  // ------------------------------------------------------ sequence numbers

  /** `(s + 1) % 255`: the NCP protocol reserves TSN 255. Dafny's `%` and
      Python's agree for a positive divisor. */
  function NextSequence(s: int): (r: nat)
    ensures r < 255
  {
    (s + 1) % 255
  }

  /** The sequence number after `n` calls of get_sequence starting at `s`. */
  function SequenceAfter(s: int, n: nat): int
  {
    if n == 0 then s else NextSequence(SequenceAfter(s, n - 1))
  }

  /** The part of the controller that get_sequence updates. */
  class SequenceCounter {
    var sendSequence: int

    constructor (initial: int)
      ensures sendSequence == initial
    {
      sendSequence := initial;
    }

    /** get_sequence: advance `_send_sequence` and return the new value. */
    method GetSequence() returns (tsn: nat)
      modifies this
      ensures tsn == NextSequence(old(sendSequence))
      ensures sendSequence == tsn
      ensures tsn < 255
    {
      sendSequence := (sendSequence + 1) % 255;
      tsn := sendSequence;
    }
  }

  /** `%` by 255 below twice the modulus is at most one subtraction. */
  lemma ModSmall(x: int)
    requires 0 <= x < 510
    ensures x % 255 == if x < 255 then x else x - 255
  {
  }

  /** Starting from a valid TSN, `n` calls give `(s + n) % 255`. */
  lemma {:induction false} SequenceAfterIsSum(s: int, n: nat)
    requires 0 <= s < 255
    ensures SequenceAfter(s, n) == (s + n) % 255
  {
    if n > 0 {
      SequenceAfterIsSum(s, n - 1);
      var q := (s + n - 1) % 255;
      ModSmall(q + 1);
      ModArith(s + n - 1);
    }
  }

  /** Adding one commutes with reducing by 255. */
  lemma ModArith(x: int)
    ensures (x % 255 + 1) % 255 == (x + 1) % 255
  {
  }

  /** The TSNs cycle with period 255: 255 calls come back to the start, and
      fewer calls never do, so the last 255 TSNs are pairwise distinct and
      255 never occurs. */
  lemma SequencePeriod(s: int, n: nat)
    requires 0 <= s < 255
    ensures SequenceAfter(s, 255) == s
    ensures 0 < n < 255 ==> SequenceAfter(s, n) != s
    ensures n > 0 ==> 0 <= SequenceAfter(s, n) < 255
  {
    SequenceAfterIsSum(s, 255);
    ModSmall(s + 255);
    SequenceAfterIsSum(s, n);
    if 0 < n < 255 {
      ModSmall(s + n);
    }
  }

  // ------------------------------------------------------ zigpy packets

  /** The zigpy transmit options the controller looks at. */
  datatype TxOptions = TxOptions(ack: bool, apsEncryption: bool)

  const NoTxOptions: TxOptions := TxOptions(false, false)

  datatype AddrMode = Group | NWK | IEEE | Broadcast

  datatype Address = NwkAddress(nwk: int) | IeeeAddress(eui: seq<int>)

  datatype AddrModeAddress = AddrModeAddress(mode: AddrMode, address: Address)

  /** zigpy pairs an EUI64 with IEEE mode and an integer with every other
      mode. */
  predicate WellTyped(a: AddrModeAddress) {
    (a.mode == IEEE) == a.address.IeeeAddress?
  }

  /** The fields of a zigpy ZigbeePacket that the controller reads or
      writes; `None` is a field left unset. */
  datatype ZigbeePacket = ZigbeePacket(
    src: AddrModeAddress,
    srcEp: Option<int>,
    dst: AddrModeAddress,
    dstEp: Option<int>,
    tsn: int,
    profileId: int,
    clusterId: int,
    data: Bytes,
    txOptions: TxOptions,
    radius: Option<int>,
    lqi: int,
    rssi: int)

  // ------------------------------------------------------ send_packet

  /** The ZDO endpoint of zigpy. */
  const ZdoEndpoint: int := 0

  /** aps.TransmitOptions bits. */
  const SecurityEnabled: int := 0x01
  const AckEnabled: int := 0x04

  /** The fixed ParamLength of every APSDE-DATA request. */
  const DataReqParamLength: int := 21

  /** The fields of the APS.DataReq request that send_packet issues. */
  datatype DataRequest = DataRequest(
    tsn: int,
    paramLength: int,
    dataLength: int,
    dstAddr: seq<int>,
    profileId: int,
    clusterId: int,
    dstEndpoint: int,
    srcEndpoint: int,
    radius: int,
    dstAddrMode: AddrMode,
    txOptions: int,
    useAlias: bool,
    aliasSrcAddr: int,
    aliasSeqNbr: int,
    payload: Bytes)

  /** What send_packet hands the packet to. */
  datatype SendAction =
    | ZdoCommand(packet: ZigbeePacket)    // the ZBOSS-specific ZDO path
    | ApsDataRequest(request: DataRequest)

  /** The options bit mask: `|=` of disjoint bits is their sum. */
  function ApsTxOptions(o: TxOptions): int {
    (if o.ack then AckEnabled else 0) + (if o.apsEncryption then SecurityEnabled else 0)
  }

  /** Bit `mask` (a power of two) of `v`; for a positive divisor Dafny's
      `/` floors as Python's `>>` does. */
  predicate HasFlag(v: int, mask: nat)
    requires mask > 0
  {
    (v / mask) % 2 == 1
  }

  /** A short (group, NWK or broadcast) address widened to an EUI64:
      low byte, high byte, six zero bytes. */
  function ShortAddressEui(addr: int): seq<int> {
    [addr % 256, addr / 256, 0, 0, 0, 0, 0, 0]
  }

  /** `x or 0` on an optional field. */
  function OrZero(x: Option<int>): int {
    if x.Some? then x.value else 0
  }

  /** send_packet up to the request it issues; `connected` is whether
      `_api` is set. */
  function SendPacket(connected: bool, p: ZigbeePacket): Result<SendAction>
    requires WellTyped(p.dst)
  {
    if !connected then Err(DeliveryError)
    else if p.srcEp == Some(ZdoEndpoint) || p.dstEp == Some(ZdoEndpoint) then Ok(ZdoCommand(p))
    else
      var dstAddr := if p.dst.mode != IEEE then ShortAddressEui(p.dst.address.nwk) else p.dst.address.eui;
      var dstMode := if p.dst.mode == Broadcast then Group else p.dst.mode;
      Ok(ApsDataRequest(DataRequest(
        p.tsn, DataReqParamLength, |p.data|, dstAddr, p.profileId, p.clusterId,
        OrZero(p.dstEp), OrZero(p.srcEp), OrZero(p.radius), dstMode,
        ApsTxOptions(p.txOptions), false, 0, 0, p.data)))
  }

  /** The options byte has ACK_ENABLED exactly for ACK, SECURITY_ENABLED
      exactly for APS encryption, no other bit, and is NONE without
      either. */
  lemma TxOptionsBits(o: TxOptions)
    ensures HasFlag(ApsTxOptions(o), AckEnabled) <==> o.ack
    ensures HasFlag(ApsTxOptions(o), SecurityEnabled) <==> o.apsEncryption
    ensures var r := ApsTxOptions(o); r == 0 || r == 1 || r == 4 || r == 5
    ensures ApsTxOptions(o) == 0 <==> o == NoTxOptions
  {
  }

  /** A 16-bit address widens to the EUI64 whose little-endian value is the
      address: two address bytes followed by zeros. */
  lemma ShortAddressLittleEndian(addr: int)
    requires 0 <= addr < 65536
    ensures var e := ShortAddressEui(addr);
      && |e| == 8
      && (forall i :: 0 <= i < 8 ==> 0 <= e[i] < 256)
      && e[0] + 256 * e[1] == addr
      && (forall i :: 2 <= i < 8 ==> e[i] == 0)
  {
  }

  /** send_packet raises DeliveryError without an API and sends a packet
      for endpoint 0 on the ZDO path; any other packet becomes one APS
      data request with the packet's TSN, data and data length, the
      options from its flags, ParamLength 21, no alias, the short
      destination widened little-endian (the EUI64 as given in IEEE mode),
      unset endpoints and radius as 0, and broadcast addressing sent as
      group addressing. */
  lemma SendPacketSpec(connected: bool, p: ZigbeePacket)
    requires WellTyped(p.dst)
    ensures !connected ==> SendPacket(connected, p) == Err(DeliveryError)
    ensures connected && (p.srcEp == Some(0) || p.dstEp == Some(0)) ==>
      SendPacket(connected, p) == Ok(ZdoCommand(p))
    ensures connected && p.srcEp != Some(0) && p.dstEp != Some(0) ==>
      && SendPacket(connected, p).Ok? && SendPacket(connected, p).value.ApsDataRequest?
      && var r := SendPacket(connected, p).value.request;
      && r.tsn == p.tsn && r.payload == p.data && r.dataLength == |r.payload|
      && r.paramLength == 21 && !r.useAlias && r.aliasSrcAddr == 0 && r.aliasSeqNbr == 0
      && r.profileId == p.profileId && r.clusterId == p.clusterId
      && (HasFlag(r.txOptions, AckEnabled) <==> p.txOptions.ack)
      && (HasFlag(r.txOptions, SecurityEnabled) <==> p.txOptions.apsEncryption)
      && (r.dstAddrMode == Group <==> p.dst.mode == Group || p.dst.mode == Broadcast)
      && (p.dst.mode != Broadcast ==> r.dstAddrMode == p.dst.mode)
      && (p.dst.mode == IEEE ==> r.dstAddr == p.dst.address.eui)
      && (p.dst.mode != IEEE && 0 <= p.dst.address.nwk < 65536 ==>
            |r.dstAddr| == 8 && r.dstAddr[0] + 256 * r.dstAddr[1] == p.dst.address.nwk)
      && (p.dstEp.Some? ==> r.dstEndpoint == p.dstEp.value) && (p.dstEp.None? ==> r.dstEndpoint == 0)
      && (p.srcEp.Some? ==> r.srcEndpoint == p.srcEp.value) && (p.srcEp.None? ==> r.srcEndpoint == 0)
  {
    TxOptionsBits(p.txOptions);
    if p.dst.mode != IEEE && 0 <= p.dst.address.nwk < 65536 {
      ShortAddressLittleEndian(p.dst.address.nwk);
    }
  }

  // ------------------------------------------------------ on_apsde_indication

  /** APSFrameFC bits. */
  const FrameBroadcast: nat := 0x04
  const FrameGroup: nat := 0x08
  const FrameSecure: nat := 0x20

  /** zigpy's BroadcastAddress.ALL_ROUTERS_AND_COORDINATOR. */
  const AllRoutersAndCoordinator: int := 0xFFFC

  /** The fields of an APS.DataIndication the handler reads. */
  datatype DataIndication = DataIndication(
    payloadLength: nat,             // a uint16_t on the wire
    frameFC: int,
    srcAddr: int,
    grpAddr: int,
    dstEndpoint: int,
    srcEndpoint: int,
    clusterId: int,
    profileId: int,
    lqi: int,
    rssi: int,
    payload: Bytes)

  /** `xs[0:n]`: Python clamps n to the list. */
  function Prefix(xs: Bytes, n: nat): Bytes {
    if n <= |xs| then xs[..n] else xs
  }

  /** on_apsde_indication up to the packet it passes to packet_received;
      `ownNwk` is the coordinator's own NWK address. Reading the TSN from
      `Payload[1]` raises IndexError on a shorter payload. */
  function OnApsdeIndication(ownNwk: int, msg: DataIndication): Result<ZigbeePacket> {
    var dst :=
      if HasFlag(msg.frameFC, FrameBroadcast) then AddrModeAddress(Broadcast, NwkAddress(AllRoutersAndCoordinator))
      else if HasFlag(msg.frameFC, FrameGroup) then AddrModeAddress(Group, NwkAddress(msg.grpAddr))
      else AddrModeAddress(NWK, NwkAddress(ownNwk));
    if |msg.payload| < 2 then Err(IndexError)
    else
      Ok(ZigbeePacket(
        AddrModeAddress(NWK, NwkAddress(msg.srcAddr)), Some(msg.srcEndpoint), dst, Some(msg.dstEndpoint),
        msg.payload[1] as int, msg.profileId, msg.clusterId, Prefix(msg.payload, msg.payloadLength),
        TxOptions(false, HasFlag(msg.frameFC, FrameSecure)), None, msg.lqi, msg.rssi))
  }

  /** A prefix of the payload: all of it when the declared length is the
      payload's length, and never longer than either. */
  lemma PrefixSpec(xs: Bytes, n: nat)
    ensures |Prefix(xs, n)| <= |xs| && |Prefix(xs, n)| <= n
    ensures Prefix(xs, n) == xs[..|Prefix(xs, n)|]
    ensures n <= |xs| ==> |Prefix(xs, n)| == n
    ensures n >= |xs| ==> Prefix(xs, n) == xs
  {
  }

  /** The indication is delivered exactly when the payload has a TSN byte.
      The destination is the all-routers broadcast address when the
      Broadcast bit is set, otherwise the group when the Group bit is set,
      otherwise the coordinator's own address; the packet is secured
      exactly when the Secure bit is set; its TSN is the second payload
      byte and its data the first PayloadLength payload bytes. */
  lemma IndicationSpec(ownNwk: int, msg: DataIndication)
    ensures OnApsdeIndication(ownNwk, msg).Ok? <==> |msg.payload| >= 2
    ensures OnApsdeIndication(ownNwk, msg).Ok? ==>
      var p := OnApsdeIndication(ownNwk, msg).value;
      && WellTyped(p.dst) && WellTyped(p.src)
      && p.src == AddrModeAddress(NWK, NwkAddress(msg.srcAddr))
      && (p.dst.mode == Broadcast <==> HasFlag(msg.frameFC, FrameBroadcast))
      && (p.dst.mode == Group <==> !HasFlag(msg.frameFC, FrameBroadcast) && HasFlag(msg.frameFC, FrameGroup))
      && (p.dst.mode == Broadcast ==> p.dst.address.nwk == AllRoutersAndCoordinator)
      && (p.dst.mode == Group ==> p.dst.address.nwk == msg.grpAddr)
      && (p.dst.mode != Broadcast && p.dst.mode != Group ==> p.dst == AddrModeAddress(NWK, NwkAddress(ownNwk)))
      && (p.txOptions.apsEncryption <==> HasFlag(msg.frameFC, FrameSecure)) && !p.txOptions.ack
      && p.tsn == msg.payload[1] as int
      && p.data == msg.payload[..|p.data|]
      && (msg.payloadLength <= |msg.payload| ==> |p.data| == msg.payloadLength)
      && (msg.payloadLength >= |msg.payload| ==> p.data == msg.payload)
  {
    PrefixSpec(msg.payload, msg.payloadLength);
  }

  // ------------------------------------------------------ on_ncp_reset

  /** ResetSource.RESET_SRC_POWER_ON. */
  const ResetSrcPowerOn: int := 0

  datatype ResetOutcome = Ignored | ConnectionLost(resetSrc: int)

  function OnNcpReset(resetSrc: int): ResetOutcome {
    if resetSrc == ResetSrcPowerOn then Ignored else ConnectionLost(resetSrc)
  }

  /** Only a power-on reset is ignored; every other source is reported as
      a lost connection carrying the source. */
  lemma ResetFilter(resetSrc: int)
    ensures OnNcpReset(resetSrc) == Ignored <==> resetSrc == 0
    ensures OnNcpReset(resetSrc) != Ignored ==> OnNcpReset(resetSrc).resetSrc == resetSrc
  {
  }

  // ------------------------------------------------------ extended PAN ID

  function Reverse(b: Bytes): Bytes {
    if |b| == 0 then [] else Reverse(b[1..]) + [b[0]]
  }

  /** The extended PAN ID as stored: the NCP's serialised EUI64 reversed. */
  function StoredExtendedPanId(fromNcp: Bytes): Bytes {
    Reverse(fromNcp)
  }

  /** Byte i of the reversal is byte |b|-1-i of the original. */
  lemma {:induction false} ReverseAt(b: Bytes)
    ensures |Reverse(b)| == |b|
    ensures forall i :: 0 <= i < |b| ==> Reverse(b)[i] == b[|b| - 1 - i]
  {
    if |b| > 0 {
      ReverseAt(b[1..]);
    }
  }

  /** The stored ID has the NCP's bytes in the opposite order, and
      reversing it again gives the NCP's bytes back. */
  lemma PanIdReversed(fromNcp: Bytes)
    ensures |StoredExtendedPanId(fromNcp)| == |fromNcp|
    ensures forall i :: 0 <= i < |fromNcp| ==> StoredExtendedPanId(fromNcp)[i] == fromNcp[|fromNcp| - 1 - i]
    ensures Reverse(StoredExtendedPanId(fromNcp)) == fromNcp
  {
    ReverseAt(fromNcp);
    ReverseAt(Reverse(fromNcp));
  }
}
