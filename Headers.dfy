/** The high-level common header (HLCommonHeader), the control types and
    the low-level flag masks of zigpy_zboss/types/commands.py. A header is
    the unsigned 32-bit integer the source subclasses; its fields are read
    and written with the same masks and shifts, spelt as division and
    remainder by powers of two. */
module Headers {
  import opened Basic

  const P8: nat := 0x100
  const P16: nat := 0x1_0000
  const P32: nat := 0x1_0000_0000

  /** TYPE_ZBOSS_NCP_API_HL: the low-level frame type of every API frame. */
  const ApiHlType: byte := 0x06

  /** ControlType members. */
  const Req: byte := 0x00
  const Rsp: byte := 0x01
  const Ind: byte := 0x02

  /** LLFlags members. */
  const IsAck: byte := 0x01
  const Retransmit: byte := 0x02
  const PacketSeq: byte := 0x0C
  const AckSeq: byte := 0x30
  const FirstFrag: byte := 0x40
  const LastFrag: byte := 0x80

  function BitOr(a: byte, b: byte): byte {
    ((a as bv8) | (b as bv8)) as int
  }

  function BitAnd(a: byte, b: byte): byte {
    ((a as bv8) & (b as bv8)) as int
  }

  /** `flags & mask` taken as a truth value. */
  predicate HasFlag(flags: byte, mask: byte) {
    BitAnd(flags, mask) != 0
  }

  /** The two-bit ACK sequence field, `(flags & 0x30) >> 4`. */
  function AckSeqOf(flags: byte): (r: nat)
    ensures r < 4
  {
    (flags / 16) % 4
  }

  /** The two-bit packet sequence field, `(flags & 0x0C) >> 2`. */
  function PacketSeqOf(flags: byte): (r: nat)
    ensures r < 4
  {
    (flags / 4) % 4
  }

  // ------------------------------------------------------- HLCommonHeader

  type HLHeader = h: int | 0 <= h < P32

  /** `self & 0x000000FF` */
  function Version(h: HLHeader): byte { h % P8 }

  /** `(self & 0x0000FF00) >> 8` */
  function ControlTypeOf(h: HLHeader): byte { (h / P8) % P8 }

  /** `(self & 0xFFFF0000) >> 16` */
  function CommandId(h: HLHeader): (r: nat)
    ensures r < P16
  {
    h / P16
  }

  /** The header with the given fields. */
  function HLPack(version: byte, controlType: byte, id: nat): HLHeader
    requires id < P16
  {
    version + P8 * controlType + P16 * id
  }

  /** Each accessor reads back its own field of a packed header. */
  lemma HLPackFields(version: byte, controlType: byte, id: nat)
    requires id < P16
    ensures var h := HLPack(version, controlType, id);
      Version(h) == version && ControlTypeOf(h) == controlType && CommandId(h) == id
  {
    var h := HLPack(version, controlType, id);
    assert h / P16 == id;
    assert h / P8 == controlType + P8 * id;
  }

  /** The three fields make up the whole header: there are no other bits. */
  lemma HeaderFields(h: HLHeader)
    ensures h == HLPack(Version(h), ControlTypeOf(h), CommandId(h))
  {
    var q8 := h / P8;
    assert h / P16 == q8 / P8;
    assert h == h % P8 + P8 * q8;
    assert q8 == q8 % P8 + P8 * (q8 / P8);
  }

  /** with_id: only the id changes, to the low 16 bits of the argument. */
  function WithId(h: HLHeader, value: int): (r: HLHeader)
    ensures CommandId(r) == value % P16
    ensures Version(r) == Version(h) && ControlTypeOf(r) == ControlTypeOf(h)
  {
    HeaderFields(h);
    HLPackFields(Version(h), ControlTypeOf(h), value % P16);
    h % P16 + (value % P16) * P16
  }

  /** with_type: only the control type changes, to the low 8 bits. */
  function WithType(h: HLHeader, value: int): (r: HLHeader)
    ensures ControlTypeOf(r) == value % P8
    ensures Version(r) == Version(h) && CommandId(r) == CommandId(h)
  {
    HeaderFields(h);
    HLPackFields(Version(h), value % P8, CommandId(h));
    h - ControlTypeOf(h) * P8 + (value % P8) * P8
  }

  /** with_version: only the version changes, to the low 8 bits. */
  function WithVersion(h: HLHeader, value: int): (r: HLHeader)
    ensures Version(r) == value % P8
    ensures ControlTypeOf(r) == ControlTypeOf(h) && CommandId(r) == CommandId(h)
  {
    HeaderFields(h);
    HLPackFields(value % P8, ControlTypeOf(h), CommandId(h));
    h - Version(h) + value % P8
  }

  lemma HeaderFieldsInjective(a: HLHeader, b: HLHeader)
    requires Version(a) == Version(b) && ControlTypeOf(a) == ControlTypeOf(b)
    requires CommandId(a) == CommandId(b)
    ensures a == b
  {
    HeaderFields(a);
    HeaderFields(b);
  }

  /** The header of a command definition, as CommandsMeta computes it:
      `HLCommonHeader().with_id(command_id).with_type(control_type)`. */
  function DefinitionHeader(commandId: int, controlType: int): (r: HLHeader)
    ensures CommandId(r) == commandId % P16 && ControlTypeOf(r) == controlType % P8
    ensures Version(r) == 0
  {
    WithType(WithId(0, commandId), controlType)
  }
}
