# ZBOSS NCP host protocol in Dafny

This project models the host side of the ZBOSS NCP serial protocol, as
implemented by the `zigpy_zboss` radio library, and proves properties of
that model. It covers five parts:

- **Wire codecs** (`Basic`, `Records`, `Headers`, `Frames`, `Commands`).
  The codecs cover:
  - little-endian fixed-width integers, two's complement when signed;
  - raw, length-prefixed, count-prefixed, fixed-length and greedy lists;
  - the 32-bit high-level header and the 56-bit low-level header, each
    with field accessors and `with_*` setters;
  - the CRC16-wrapped high-level packet;
  - frame parsing and ACK frames;
  - transmit fragmentation and receive reassembly at the 247-byte body
    limit;
  - typed command values: schema-driven construction checks, `to_frame`,
    `from_frame`, wildcard `matches` and equality.
- **Link layer** (`Uart`). The `ZbossNcpProtocol` class has:
  - a receive buffer that is grown and consumed from the front;
  - frame extraction with resynchronisation on the `DE AD` signature;
  - the stop-and-wait send counter `_pack_seq`, which cycles 1, 2, 3;
  - ACK echoing of every data frame;
  - the counter reset done by `close`.
- **Listener registry and dispatch** (`Registry`, `Api`, `CommandTable`).
  These model:
  - the header-keyed map of listener lists;
  - the fragment accumulator of `frame_received`;
  - the "first one-shot wins, indications always fire" dispatch rule;
  - `wait_for_responses`, `register_indication_listeners` and
    `remove_listener`;
  - the checks done before any I/O in `request` and `_send_frags`;
  - the registry part of `disconnect`;
  - the decoding of `version`;
  - the `COMMANDS_BY_ID` header-to-class table.
- **NVRAM dataset codecs** (`Nvram`, `Structs`):
  - the address-map and APS secure-key datasets of `types/nvids.py`;
  - the address map and byte dataset of `types/nvram.py`;
  - the cluster-list splitting of `SimpleDescriptor.deserialize`.
- **Application mappings** (`Application`):
  - the transaction sequence counter, which never yields 255;
  - the transmit-option bits and destination address encoding of
    `send_packet`;
  - the destination selection of `on_apsde_indication`;
  - the `on_ncp_reset` filter;
  - the byte reversal of the extended PAN ID.

CRC8 and CRC16 are not modelled as polynomials. Every lemma holds for any
pair of checksum functions, which are passed in a `Checksums` value.

Errors the Python code raises are `Err` values of the `Wrappers.Result`
type. For example, `ValueError`, `KeyError`, `InvalidFrame` and
`BufferTooShort` are all such values.

Where the Python code works by updating state, the model does too:
- `Uart.Protocol`, `Api.Zboss` and `Application.SequenceCounter` are
  classes whose methods update fields.
- The list deserialisers, fragmenters, table builder and dispatch walk are
  methods with loops.

Each class method is proved against a function of its old state:
- `Uart.Link` for the link layer, with `Uart.Receive`;
- `Api.ZbossState` for the API, with `Api.Receive`, `Api.Deliver`,
  `Api.Listen`, `Api.Requested` and `Api.Disconnected`.

The lemmas then state what those functions promise.

Several behaviours of the code are modelled as written, with a lemma that
exhibits each one:
- A high-level header whose value is 0 is dropped on serialisation, so it
  does not round-trip (`Frames.ZeroHeaderIsDropped`).
- A first transmit fragment of fewer than 4 bytes breaks reassembly
  (`Frames.ShortFirstFragmentBreaksReassembly`).
- A non-first fragment read off the wire keeps the sender's two CRC bytes
  in its payload (`Frames.WireFragmentKeepsCrc`).
- A plain `ValueError` from a too-short body is not caught by the
  resynchronisation handler. It leaves the buffer stuck
  (`Uart.ShortBodyStaysStuck`, `Uart.ShortBodyExample`).
- The APS secure-key serialiser is not the inverse of its deserialiser
  (`Nvram.SecureKeysNotInverse`).
- `from_frame` does not invert `to_frame` after an explicit `None`, an
  omitted greedy parameter, or a failed status with omitted parameters
  (`Commands.ExplicitNoneShifts`, `Commands.OmittedGreedyReadsEmpty`,
  `Commands.FailedStatusReadsPartial`).

## Model

| member | source | states |
|---|---|---|
| Basic.FromLittleEndianOfLittleEndian | zigpy_zboss/types/basic.py:71-88 | reading back `n` little-endian bytes of any `u < 256^n` gives `u` |
| Basic.LittleEndianOfFromLittleEndian | zigpy_zboss/types/basic.py:71-88 | writing back the value of any byte string gives the same bytes |
| Basic.EncodeInt | zigpy_zboss/types/basic.py:71-78 | serialisation succeeds iff the value is in the kind's range (the same check construction does, lines 38-46); the result has exactly `size` bytes encoding `v`, or `v + 256^size` when negative |
| Basic.DecodeInt | zigpy_zboss/types/basic.py:81-88 | fails iff fewer than `size` bytes are given; on success the value is in range and the rest is exactly `data[size..]` |
| Basic.IntRoundTrip | zigpy_zboss/types/basic.py:71-88 | `deserialize(serialize(v) + rest) == (v, rest)` for every in-range `v` |
| Basic.DecodeThenEncode | zigpy_zboss/types/basic.py:71-88 | re-serialising a decoded integer gives back the first `size` bytes |
| Basic.BytesRoundTrip | zigpy_zboss/types/basic.py:9-19 | `Bytes` serialises as itself and deserialisation takes everything, leaving an empty rest, in both directions |
| Basic.EncodePrefixed | zigpy_zboss/types/basic.py:168-170 | `ShortBytes`/`LongBytes` serialisation succeeds iff the length fits the prefix, and is the little-endian length followed by the data |
| Basic.DecodePrefixed | zigpy_zboss/types/basic.py:173-180 | succeeds iff the prefix is present and the declared length fits the remaining bytes; the input is then prefix + data + rest |
| Basic.PrefixedRoundTrip | zigpy_zboss/types/basic.py:163-185 | decoding an encoded prefixed string followed by any rest returns the string and the rest |
| Basic.EncodeItems | zigpy_zboss/types/basic.py:222-227 | a list serialises iff every item does |
| Basic.DecodeItems | zigpy_zboss/types/basic.py:230-237 | a successful read of `n` items returns exactly `n` items |
| Basic.DeserializeCount | zigpy_zboss/types/basic.py:233-237 | the item loop computes `DecodeItems` |
| Basic.ItemsRoundTrip | zigpy_zboss/types/basic.py:222-237 | for any item codec that round-trips, reading as many items as the list has from the serialised list followed by any rest returns the list and the rest |
| Basic.DeserializeLVList | zigpy_zboss/types/basic.py:230-237 | the `LVList` loop reads the count header and then that many items (`DecodeLVList`) |
| Basic.LVListRoundTrip | zigpy_zboss/types/basic.py:222-237 | `LVList` round trip for an unsigned count header and any rest |
| Basic.LVListCountOverflow | zigpy_zboss/types/basic.py:222-227 | a list too long for its count header fails with `ValueError` |
| Basic.LVListExample | zigpy_zboss/types/basic.py:230-237 | `\x0412345` read as a u8-counted byte list gives `1234` and rest `5` |
| Basic.IntItemsTruncated | zigpy_zboss/types/basic.py:230-237 | fewer bytes than `n` items need makes the list read fail |
| Basic.EncodeFixedList | zigpy_zboss/types/basic.py:251-262 | a `FixedList` whose length differs from `_length` fails with `ValueError` |
| Basic.DeserializeFixedList | zigpy_zboss/types/basic.py:264-271 | the `FixedList` loop reads exactly `_length` items |
| Basic.FixedListRoundTrip | zigpy_zboss/types/basic.py:251-271 | a serialised fixed list has `_length` items and reads back with any rest |
| Basic.DeserializeComplete | zigpy_zboss/types/basic.py:287-294 | the `CompleteList` loop reads items until the data is empty, returns an empty rest, and fails exactly when `DecodeComplete` does |
| Basic.CompleteRoundTrip | zigpy_zboss/types/basic.py:282-294 | a serialised greedy list reads back as the same list |
| Basic.IntCodecRoundTrips | zigpy_zboss/types/basic.py:71-88 | every integer kind is an item codec that round-trips and always consumes input |
| Basic.ByteItems | zigpy_zboss/types/basic.py:230-237 | reading `n` u8 items takes the first `n` bytes |
| Records.EncodeField | zigpy_zboss/types/nvids.py:45-56 | a struct field serialises iff its value fits, in exactly the field's byte size |
| Records.DecodeField | zigpy_zboss/types/nvids.py:45-56 | a field read fails iff the data is shorter than the field; otherwise it consumes exactly the field's size |
| Records.FieldRoundTrip | zigpy_zboss/types/nvids.py:45-56 | a field value that fits reads back with any rest |
| Records.ByteSizeAppend | zigpy_zboss/types/nvids.py:45-56 | the byte size of a concatenated layout is the sum of the two sizes |
| Records.StructEncodes | zigpy_zboss/types/nvids.py:45-56 | a struct serialises iff every field fits, in exactly `get_byte_size` bytes |
| Records.StructDecodes | zigpy_zboss/types/nvids.py:45-56 | a struct read succeeds iff `get_byte_size` bytes are present, and consumes exactly that many |
| Records.StructRoundTrip | zigpy_zboss/types/nvids.py:45-56 | a serialised struct reads back with any rest |
| Records.StructDecodeThenEncode | zigpy_zboss/types/nvids.py:45-56 | re-serialising a read struct gives its `get_byte_size` bytes back |
| Records.RecordsDecode | zigpy_zboss/types/nvids.py:87-96 | reading `n` records succeeds iff `n * size` bytes are present, leaving the bytes after them |
| Records.RecordsLength | zigpy_zboss/types/nvids.py:98-111 | `n` serialised records take `n * size` bytes |
| Records.RecordsDecodeThenEncode | zigpy_zboss/types/nvids.py:87-111 | re-serialising `n` read records gives the `n * size` bytes read |
| Records.RecordsRoundTrip | zigpy_zboss/types/nvids.py:87-111 | serialised records read back with any rest |
| Headers.AckSeqOf | zigpy_zboss/types/commands.py:175-184 | the `ACKSeq` field (mask 0x30) of a flag byte is below 4 |
| Headers.PacketSeqOf | zigpy_zboss/types/commands.py:175-184 | the `PacketSeq` field (mask 0x0C) of a flag byte is below 4 |
| Headers.HLPackFields | zigpy_zboss/types/commands.py:186-231 | version is bits 0-7, control type bits 8-15 and id bits 16-31: each accessor reads back what was packed |
| Headers.HeaderFields | zigpy_zboss/types/commands.py:186-231 | every header is the packing of its three fields |
| Headers.HeaderFieldsInjective | zigpy_zboss/types/commands.py:186-231 | two headers with the same fields are equal |
| Headers.WithId | zigpy_zboss/types/commands.py:221-223 | `with_id` sets the id to the masked value and keeps version and type |
| Headers.WithType | zigpy_zboss/types/commands.py:225-227 | `with_type` sets the type to the masked value and keeps version and id |
| Headers.WithVersion | zigpy_zboss/types/commands.py:229-231 | `with_version` sets the version to the masked value and keeps type and id |
| Headers.DefinitionHeader | zigpy_zboss/types/commands.py:264-347 | a definition's header has its id and control type and version 0 |
| Frames.PackFields | zigpy_zboss/frames.py:15-45 | signature is bits 0-15, size 16-31, type 32-39, flags 40-47 and crc8 48-55: each accessor reads back what was packed |
| Frames.Unpack | zigpy_zboss/frames.py:48-70 | every low-level header is the packing of its five fields |
| Frames.WithSignature | zigpy_zboss/frames.py:72-74 | `with_signature` changes only the signature, to the value modulo 2^16 |
| Frames.WithSize | zigpy_zboss/frames.py:76-78 | `with_size` changes only the size |
| Frames.WithFrameType | zigpy_zboss/frames.py:80-82 | `with_type` changes only the frame type |
| Frames.WithFlags | zigpy_zboss/frames.py:84-86 | `with_flags` changes only the flags |
| Frames.WithCrc8 | zigpy_zboss/frames.py:88-90 | `with_crc8` changes only the crc8 |
| Frames.LLHeaderBytes | zigpy_zboss/frames.py:15-45 | the seven serialised header bytes are signature LE, size LE, type, flags and crc8 |
| Frames.LLDeserialize | zigpy_zboss/frames.py:15-45 | header reads fail iff fewer than 7 bytes are given; the header re-serialises to the first 7 bytes and the rest is `data[7..]` |
| Frames.LLRoundTrip | zigpy_zboss/frames.py:15-45 | a serialised low-level header reads back with any rest |
| Frames.HLSerialize | zigpy_zboss/frames.py:142-152 | a packet serialises as `crc16(body)` LE followed by the body, which is the 4-byte header (when it is written) plus the data |
| Frames.HLLengthIsSerialisedLength | zigpy_zboss/frames.py:127-129 | `length` is the serialised length |
| Frames.HLDeserialize | zigpy_zboss/frames.py:132-140 | a stored crc16 that differs from the CRC16 of the rest gives `InvalidFrame`; on success the input is crc + header + data |
| Frames.HLRoundTrip | zigpy_zboss/frames.py:132-152 | `deserialize(serialize(p)) == p` whenever a non-zero header is present |
| Frames.ZeroHeaderIsDropped | zigpy_zboss/frames.py:142-152 | header value 0 is serialised like no header, so it does not round-trip |
| Frames.FrameDeserialize | zigpy_zboss/frames.py:165-192 | fewer than 7 bytes give `ValueError`; a success has the signature and a crc8 that verifies; ACK frames carry no packet and consume 7 bytes; others consume `size - 5` body bytes |
| Frames.FrameRoundTrip | zigpy_zboss/frames.py:165-192 | a sendable first-fragment frame reads back from its serialisation with any rest |
| Frames.WireFragmentKeepsCrc | zigpy_zboss/frames.py:165-192 | a non-first fragment off the wire keeps its 2 CRC bytes at the head of its payload |
| Frames.AckFlags | zigpy_zboss/frames.py:195-211 | ACK flags are isACK plus `seq << 4`, plus Retransmit iff requested, with no fragment bits |
| Frames.AckFlagsValue | zigpy_zboss/frames.py:195-211 | the bitwise ORs of `ack` equal the arithmetic flag value |
| Frames.Sealed | zigpy_zboss/frames.py:195-211 | sealing sets crc8 over header bytes 2..5 so it verifies, and keeps every other field |
| Frames.Ack | zigpy_zboss/frames.py:195-211 | an ACK has no packet, the signature, size 5, type 0x06, a verifying crc8, the ACK bit, the given ack sequence and Retransmit iff asked |
| Frames.AckRoundTrip | zigpy_zboss/frames.py:195-211 | an ACK frame reads back from its serialisation with any rest |
| Frames.CountFragments | zigpy_zboss/frames.py:252-255 | the count is the ceiling of the body length over 247 |
| Frames.FragmentCounts | zigpy_zboss/frames.py:252-255 | bodies of 247, 248 and 5*247+50 bytes need 1, 2 and 6 fragments |
| Frames.FirstFragSize | zigpy_zboss/frames.py:262-266 | the first fragment carries between 1 and 247 bytes |
| Frames.FragmentArithmetic | zigpy_zboss/frames.py:262-266 | the first fragment plus `n - 1` full fragments add up to the body |
| Frames.HandleTxFragmentation | zigpy_zboss/frames.py:257-280 | the fragmenting loop computes `TxFragments` |
| Frames.FragmentAtShape | zigpy_zboss/frames.py:282-322 | fragment `k` has FirstFrag only (first), no fragment flag (middle) or LastFrag only (last), LL size `first_size + 7` or 254, and the matching slice of the body |
| Frames.TxFragmentsShape | zigpy_zboss/frames.py:257-322 | a packet that needs several fragments becomes `count_fragments` fragments of that shape |
| Frames.HandleRxFragmentation | zigpy_zboss/frames.py:214-229 | the reassembly loop computes `RxMerge` |
| Frames.RxBodyOfTx | zigpy_zboss/frames.py:214-229 | the concatenated `serialize()[2:]` of the transmit fragments is the sliced body |
| Frames.ReassembleTx | zigpy_zboss/frames.py:213-229 | reassembling the transmit fragments returns the original packet when the first fragment has at least 4 bytes |
| Frames.ShortFirstFragmentBreaksReassembly | zigpy_zboss/frames.py:282-295 | with a first fragment of 1 to 3 bytes, the reassembled body is longer than the original and the packet is not recovered |
| Commands.Serialize | zigpy_zboss/types/commands.py:453-484 | a parameter value of the wrong type does not serialise (`ValueError`) |
| Commands.Deserialize | zigpy_zboss/types/commands.py:505-526 | a parameter read returns a value of the parameter's type |
| Commands.EmptyData | zigpy_zboss/types/commands.py:505-526 | reading from empty data fails with `ValueError` iff the type needs data |
| Commands.ValueRoundTrip | zigpy_zboss/types/commands.py:453-526 | a parameter value reads back from its serialisation with any rest (no rest for greedy types) |
| Commands.ClassHeader | zigpy_zboss/types/commands.py:264-347 | a class header has version 0 and the definition's id; a Rsp class has type RSP |
| Commands.ClassesOf | zigpy_zboss/types/commands.py:264-347 | only a definition with neither a request schema nor IND type is rejected (`RuntimeError`); the classes keep the name and definition |
| Commands.ClassesOfShape | zigpy_zboss/types/commands.py:264-347 | a request definition gives a Req and a Rsp class, partners of each other, the Rsp header being the Req header with type RSP; an IND definition gives only an Ind class |
| Commands.Partner | zigpy_zboss/types/commands.py:264-347 | Req and Rsp classes have a partner of the other kind with the same definition; Ind classes have none |
| Commands.OptionalNames | zigpy_zboss/types/commands.py:383-402 | the optional list holds exactly the names of the schema's optional parameters |
| Commands.BindParam | zigpy_zboss/types/commands.py:404-451 | a bound value is the given one, is `None` only for partial commands or optional parameters, and always serialises; an explicit `None` for a required parameter of a full command is a `ValueError` |
| Commands.BindFromSpec | zigpy_zboss/types/commands.py:404-451 | binding succeeds iff every parameter binds, and gives one bound value per parameter in schema order |
| Commands.Construct | zigpy_zboss/types/commands.py:383-402 | an unknown name is a `KeyError`; for full commands a missing parameter or an optional skipped before a given one is a `KeyError` |
| Commands.ConstructSpec | zigpy_zboss/types/commands.py:372-451 | construction succeeds iff all names are known, (for full commands) nothing is missing or skipped, and every parameter binds; the command is then shaped by its schema |
| Commands.BindParams | zigpy_zboss/types/commands.py:404-451 | the binding loop computes `BindFrom` |
| Commands.New | zigpy_zboss/types/commands.py:372-451 | `__init__` computes `Construct` |
| Commands.GetAttr | zigpy_zboss/types/commands.py:561-574 | an attribute is found iff it names a bound parameter, and holds its value; otherwise `AttributeError` |
| Commands.EncodeFrom | zigpy_zboss/types/commands.py:453-484 | the payload encodes iff every non-`None` value serialises |
| Commands.FrameOf | zigpy_zboss/types/commands.py:453-484 | partial commands give `ValueError`; otherwise the frame holds the class header and the schema-order payload, with LL size = packet length + 5, FirstFrag and LastFrag, and type 0x06 |
| Commands.Payload | zigpy_zboss/types/commands.py:453-484 | the payload loop computes `EncodeFrom` |
| Commands.ToFrame | zigpy_zboss/types/commands.py:453-484 | `to_frame` computes `FrameOf` |
| Commands.Parse | zigpy_zboss/types/commands.py:487-527 | no packet gives `AttributeError`, a header mismatch gives `ValueError`, and a success has the class asked for |
| Commands.FromFrame | zigpy_zboss/types/commands.py:487-527 | the parsing loop computes `Parse` |
| Commands.ParseStopsAtUnset | zigpy_zboss/types/commands.py:505-526 | running out of data at an optional parameter, or past a non-zero RSP status, stops parsing with the fields read so far |
| Commands.RoundTrip | zigpy_zboss/types/commands.py:453-527 | `from_frame(to_frame(c)) == c` for a full command whose set parameters come first and whose unset ones are optional, when the first unset one needs data and a response that omits parameters has status 0; trailing optional parameters may be omitted |
| Commands.ExplicitNoneShifts | zigpy_zboss/types/commands.py:380-527 | `a=None, b=5` on two optional u8 parameters passes `__init__`, serialises as the one byte 5, and reads back as `a=5` with `b` unset |
| Commands.OmittedGreedyReadsEmpty | zigpy_zboss/types/commands.py:453-527 | an omitted greedy optional parameter reads back as the empty byte string |
| Commands.FailedStatusReadsPartial | zigpy_zboss/types/commands.py:505-512 | a complete response with status 1 and an omitted optional parameter reads back as a partial response |
| Commands.Matches | zigpy_zboss/types/commands.py:529-549 | the matching loop computes `Matching` |
| Commands.MatchingReflexive | zigpy_zboss/types/commands.py:529-549 | every command matches itself |
| Commands.EqualImpliesMatching | zigpy_zboss/types/commands.py:529-554 | equal commands match both ways |
| Commands.MatchingOneWay | zigpy_zboss/types/commands.py:529-549 | a wildcard matching a set field does not match back, so `matches` is not symmetric |
| Commands.MutualMatchingIsEqual | zigpy_zboss/types/commands.py:529-554 | commands that match both ways are equal |
| Commands.UnsetMatchesAll | zigpy_zboss/types/commands.py:529-549 | a command with every field `None` matches every command of its class |
| Commands.TrailingBytesAccepted | zigpy_zboss/types/commands.py:498-527 | `from_frame` as written parses a frame with any bytes appended to the payload back to the same command |
| Commands.ParseStrict | zigpy_zboss/types/commands.py:487-527 | the strict parser has the same error cases for missing packets and header mismatches |
| Commands.StrictRoundTrip | zigpy_zboss/types/commands.py:486-527 | the strict parser keeps the `to_frame` round trip |
| Commands.StrictRejectsTrailing | zigpy_zboss/types/commands.py:498-527 | the strict parser rejects trailing bytes with `ValueError` |
| CommandTable.DefClassesCreated | zigpy_zboss/types/commands.py:264-347 | the classes entered in the table are those the metaclass creates |
| CommandTable.StoreAppend | zigpy_zboss/commands/__init__.py:22-29 | entering one class sets its own header |
| CommandTable.StoreDef | zigpy_zboss/commands/__init__.py:22-29 | one definition enters its Req then its Rsp class, or its Ind class alone, each under its own header |
| CommandTable.StoreGroup | zigpy_zboss/commands/__init__.py:22-29 | the inner loop enters every class of one category |
| CommandTable.BuildTable | zigpy_zboss/commands/__init__.py:20-29 | the nested loop builds the table of every class of every category |
| CommandTable.StoreKeys | zigpy_zboss/commands/__init__.py:22-29 | for every key `h`, the class stored under `h` has header `h` and was registered |
| CommandTable.StoreCovers | zigpy_zboss/commands/__init__.py:22-29 | every registered class is found under its header |
| CommandTable.StoreDistinct | zigpy_zboss/commands/__init__.py:22-29 | with distinct headers, each class is the one stored under its header |
| CommandTable.TableSpec | zigpy_zboss/commands/__init__.py:20-29 | the table keys are headers of their classes, every class is present, and with distinct headers each class is stored under its own |
| Registry.MatchingHeaders | zigpy_zboss/api.py:234-255 | the headers a listener is filed under are distinct and are exactly its patterns' headers |
| Registry.AppendToSpec | zigpy_zboss/api.py:234-255 | registration appends the listener to each matched header's bucket, creating missing buckets, and leaves other buckets alone |
| Registry.RemoveFirst | zigpy_zboss/api.py:261-294 | removing a listener from a bucket is a no-op when it is absent and removes one entry otherwise |
| Registry.RemoveFirstLast | zigpy_zboss/api.py:261-294 | removing a just-appended listener restores the bucket |
| Registry.RemoveFirstOnce | zigpy_zboss/api.py:261-294 | a listener held at most once is gone after removal |
| Registry.RemoveEachOthers | zigpy_zboss/api.py:261-294 | removal leaves buckets of other headers alone |
| Registry.RemoveEachSpec | zigpy_zboss/api.py:261-294 | removal takes the listener out of each of its buckets and deletes each bucket that becomes empty |
| Registry.AddThenRemove | zigpy_zboss/api.py:234-294 | registering and then removing a new listener restores the registry |
| Registry.RemoveClears | zigpy_zboss/api.py:261-294 | after removal no bucket references the listener |
| Registry.FirstOneShot | zigpy_zboss/api.py:149-170 | the index found is the first one-shot listener that fires, or -1 when none does |
| Registry.WalkSpec | zigpy_zboss/api.py:149-170 | the dispatch walk calls every firing indication in order, resolves only the first firing one-shot, and reports whether anything matched |
| Api.Listen | zigpy_zboss/api.py:234-255 | an empty pattern list is a `ValueError` |
| Api.ListenSpec | zigpy_zboss/api.py:234-255 | a new listener is unreferenced before and is appended to every bucket of its patterns' headers, with a pending future for one-shots |
| Api.ListenKeeps | zigpy_zboss/api.py:234-309 | registering keeps the registry consistent |
| Api.ListenThenUnlisten | zigpy_zboss/api.py:234-294 | the done callback after a registration restores the registry, leaving no reference behind |
| Api.UnlistenSpec | zigpy_zboss/api.py:261-294 | the done callback leaves no reference and keeps the registry consistent |
| Api.CancelSpec | zigpy_zboss/api.py:234-255 | cancelling a pending one-shot marks its future cancelled and removes it from the registry; otherwise nothing changes |
| Api.DeliverSpec | zigpy_zboss/api.py:149-170 | dispatch matches iff some listener in the bucket fires; it calls every firing indication, resolves only the first firing one-shot, and reports an unmatched command as unhandled |
| Api.DeliverRemoves | zigpy_zboss/api.py:149-170 | the resolved one-shot is no longer referenced, and without one the registry is unchanged |
| Api.DeliverKeeps | zigpy_zboss/api.py:149-170 | dispatch keeps the registry consistent |
| Api.HandleSpec | zigpy_zboss/api.py:140-170 | handling a whole frame keeps the registry consistent; an unknown header or a failed parse changes nothing |
| Api.HandleParsed | zigpy_zboss/api.py:140-170 | a frame whose tabled class parses it is handled by dispatching that command and answering whether it matched |
| Api.HandleTrailing | zigpy_zboss/api.py:140-170 | since `from_frame` ignores leftover payload, a tabled command's frame with bytes appended is dispatched exactly as the frame itself |
| Api.ReceiveSpec | zigpy_zboss/api.py:122-170 | a non-LastFrag frame is only appended to the fragment list; a LastFrag frame with pending fragments is merged and empties the list; an unknown header is dropped without dispatch |
| Api.ReceiveCases | zigpy_zboss/api.py:130-138 | the three cases of the fragment accumulator |
| Api.ReceiveMerges | zigpy_zboss/api.py:135-146 | a merged frame is handled like any whole frame |
| Api.ReceiveFragments | zigpy_zboss/api.py:130-138 | feeding fragments `j..n-1` answers `None` for each non-last one and then handles the merged frame |
| Api.ReceiveFragmentsAll | zigpy_zboss/api.py:130-146 | feeding all fragments of a packet answers `None` for each but the last, which is handled like the merged frame |
| Api.FragmentedLikeWhole | zigpy_zboss/api.py:122-170 | receiving the transmit fragments of a frame has the same effect as receiving the frame whole |
| Api.UpToLastSpec | zigpy_zboss/api.py:203-208 | `_send_frags` sends a prefix of the fragments that stops at and includes the first LastFrag |
| Api.UpToLastAll | zigpy_zboss/api.py:203-208 | fragments with LastFrag only on the last are all sent |
| Api.ResponsePattern | zigpy_zboss/api.py:183-201 | the response pattern `Rsp(partial=True)` exists and has every field unset, so it matches every response of that type |
| Api.RequestSpec | zigpy_zboss/api.py:176-201 | a request fails iff it is not a Req, the uart is missing, or it cannot be framed: `ValueError`, then `RuntimeError`; a failure changes nothing |
| Api.RequestGoesOut | zigpy_zboss/api.py:183-208 | a valid request sends its fragments up to LastFrag without waiting for a response |
| Api.RequestRegisters | zigpy_zboss/api.py:183-201 | a valid request registers a one-shot listener on the partner Rsp pattern |
| Api.DisconnectSpec | zigpy_zboss/api.py:103-120 | disconnect drops the uart; unless a reset holds the lock, it cancels every pending one-shot and empties the registry |
| Api.DecimalRoundTrip | zigpy_zboss/api.py:317-332 | a number printed in decimal parses back |
| Api.Split | zigpy_zboss/api.py:317-332 | splitting on `.` gives at least one part |
| Api.SplitAt | zigpy_zboss/api.py:317-332 | splitting a dotted string peels off the part before the first dot |
| Api.DottedRoundTrip | zigpy_zboss/api.py:317-332 | a u32 rendered as `b3.b2.b1.b0` parses back to the same number |
| Api.Recompose | zigpy_zboss/api.py:317-332 | the four bytes `b3..b0` of a u32 recombine to it |
| Api.VersionSpec | zigpy_zboss/api.py:317-332 | `version` is `None` iff StatusCode is non-zero, and otherwise renders each of the three u32 values as a dotted quad |
| Api.Zboss.constructor | zigpy_zboss/api.py:37-54 | a new object has empty listeners, futures and fragment list, and no uart or application |
| Api.Zboss.Connect | zigpy_zboss/api.py:69-88 | connecting sets the uart and changes nothing else |
| Api.Zboss.SetApplication | zigpy_zboss/api.py:56-59 | sets the application and changes nothing else |
| Api.Zboss.AddListener | zigpy_zboss/api.py:234-309 | registering a listener computes `Listen` |
| Api.Zboss.WaitForResponses | zigpy_zboss/api.py:234-255 | `wait_for_responses` registers a one-shot listener (`Listen`) and keeps the object valid |
| Api.Zboss.RegisterIndicationListeners | zigpy_zboss/api.py:296-309 | registers a listener that is never removed (`Listen` with no one-shot) |
| Api.Zboss.RemoveListener | zigpy_zboss/api.py:261-294 | the removal loop computes `RemoveFrom` on the registry |
| Api.Zboss.Cancel | zigpy_zboss/api.py:234-255 | cancelling a listener computes `CancelFuture` |
| Api.Zboss.Dispatch | zigpy_zboss/api.py:149-170 | the dispatch loop computes `Deliver` |
| Api.Zboss.WalkBucket | zigpy_zboss/api.py:152-165 | the bucket loop with its `matched`/`one_shot_matched` flags computes `WalkOver` |
| Api.Zboss.HandleFrame | zigpy_zboss/api.py:140-170 | handling a whole frame computes `Handle` |
| Api.Zboss.FrameReceived | zigpy_zboss/api.py:122-170 | `frame_received` computes `Receive` |
| Api.Zboss.SendToUart | zigpy_zboss/api.py:210-223 | a frame is sent iff the uart is set |
| Api.Zboss.SendFrags | zigpy_zboss/api.py:203-208 | fragments up to LastFrag are sent |
| Api.Zboss.Request | zigpy_zboss/api.py:176-201 | `request` computes `Requested` |
| Api.Zboss.Disconnect | zigpy_zboss/api.py:103-120 | `disconnect` computes `Disconnected` |
| Api.Zboss.CancelAll | zigpy_zboss/api.py:109-116 | the cancel loop cancels the future of every one-shot in the registry |
| Uart.ExtractOneSpec | zigpy_zboss/uart.py:140-167 | fewer than 7 or than `size + 2` bytes are `BufferTooShort`; no `DE AD` signature or a type other than 0x06 is `InvalidFrame`; otherwise the frame is read |
| Uart.ExtractShrinks | zigpy_zboss/uart.py:160-167 | a frame read removes at least 7 bytes from the front and keeps the remainder |
| Uart.Find | zigpy_zboss/uart.py:119-138 | the search returns the first signature from `from` on, or -1 when there is none |
| Uart.Resync | zigpy_zboss/uart.py:119-138 | resync drops everything before the next signature at index 1 or more, or clears the buffer |
| Uart.OnFrame | zigpy_zboss/uart.py:90-117 | handling a frame keeps the buffer and the link valid |
| Uart.OnFrameSpec | zigpy_zboss/uart.py:96-117 | an ACK that matches `_pack_seq` advances it and sets the event; other ACKs are ignored and never forwarded; a data frame sets `_ack_seq` from its flags, writes an ACK and is forwarded, with errors of `frame_received` swallowed |
| Uart.Process | zigpy_zboss/uart.py:119-138 | the extraction loop keeps the link valid |
| Uart.ProcessFrame | zigpy_zboss/uart.py:119-138 | after a frame is read, it is handled and extraction goes on |
| Uart.ProcessInvalid | zigpy_zboss/uart.py:119-138 | on `InvalidFrame` extraction resynchronises and goes on |
| Uart.ProcessStops | zigpy_zboss/uart.py:119-138 | `BufferTooShort` stops extraction quietly, and any other error escapes with the buffer unchanged |
| Uart.ProcessSpec | zigpy_zboss/uart.py:119-138 | extraction only consumes bytes from the front of the buffer and, when nothing escapes, stops at a too-short buffer |
| Uart.SetFrameFlag | zigpy_zboss/uart.py:77-82 | `_set_frame_flag` ORs `pack_seq << 2` into the flags and changes no other field |
| Uart.LlChecksum | zigpy_zboss/uart.py:84-88 | `_ll_checksum` sets a crc8 that verifies and keeps every other field |
| Uart.Protocol.constructor | zigpy_zboss/uart.py:28-35 | a new protocol has an empty buffer and both counters 0 |
| Uart.Protocol.Close | zigpy_zboss/uart.py:43-48 | `close` resets `_ack_seq` and `_pack_seq` to 0 and drops the API |
| Uart.Protocol.Write | zigpy_zboss/uart.py:50-58 | writing records the bytes when a transport is present |
| Uart.Protocol.Send | zigpy_zboss/uart.py:60-75 | `send` writes the frame with the packet sequence set and a fresh crc8, and clears the ACK event |
| Uart.Protocol.ExtractFrame | zigpy_zboss/uart.py:140-167 | a read frame is removed from the buffer front; on an error the buffer is untouched |
| Uart.Protocol.HandleFrame | zigpy_zboss/uart.py:96-117 | handling one frame computes `OnFrame` |
| Uart.Protocol.DataReceived | zigpy_zboss/uart.py:90-117 | `data_received` appends the chunk and runs the extraction loop (`Receive`) |
| Uart.ExtractWireFrame | zigpy_zboss/uart.py:140-167 | a well-formed frame at the front of the buffer is read exactly, leaving the rest |
| Uart.PartialFrameWaits | zigpy_zboss/uart.py:140-158 | any strict prefix of a frame is `BufferTooShort`, so a partial frame is never decoded |
| Uart.WholeFrame | zigpy_zboss/uart.py:90-138 | a buffer holding one frame is handled as that frame |
| Uart.SplitDelivery | zigpy_zboss/uart.py:90-117 | a frame delivered in two chunks waits after the first and then has the same effect as when delivered whole |
| Uart.GarbageResync | zigpy_zboss/uart.py:119-138 | garbage without a signature before a frame makes the front invalid, and resynchronisation lands on the frame |
| Uart.SkipsGarbage | zigpy_zboss/uart.py:119-138 | garbage in front of a frame has no effect on what is delivered |
| Uart.BadChecksumDropped | zigpy_zboss/uart.py:119-167 | a frame whose crc8 does not verify is `InvalidFrame` and is skipped by resynchronisation |
| Uart.ShortBodyStaysStuck | zigpy_zboss/uart.py:119-138 | a plain `ValueError` at the front escapes, and every later chunk stays behind it |
| Uart.ShortBodyExample | zigpy_zboss/uart.py:140-167 | a first-fragment header of size 5 with no body is such a `ValueError` |
| Uart.AckedSend | zigpy_zboss/uart.py:60-103 | after a send, the matching ACK advances `_pack_seq` to `_pack_seq % 3 + 1` and sets the event |
| Uart.PackSeqCycle | zigpy_zboss/uart.py:96-103 | a matching ACK moves the counter into 1..3, cycling 1, 2, 3, 1 |
| Uart.OnFrameDelivers | zigpy_zboss/uart.py:105-117 | at most the frame itself is forwarded, and only when it is a data frame |
| Uart.OnlyDataDelivered | zigpy_zboss/uart.py:90-138 | whatever a buffer holds, only data frames are ever forwarded |
| Nvram.GetByteSize | zigpy_zboss/types/nvids.py:45-56 | the summing loop computes the layout's byte size |
| Nvram.LayoutSizes | zigpy_zboss/types/nvids.py:59-120 | the address-map header is 6 bytes, a record 16, a secure entry 28, the nvram.py header 4, and u8+EUI64+u8 is 10 |
| Nvram.DeserializeAddrMap | zigpy_zboss/types/nvids.py:87-96 | the loop reads the header and then exactly `entry_count` records |
| Nvram.AddrMapHeaderFits | zigpy_zboss/types/nvids.py:98-111 | the written header is byte_count = `16n + 4`, entry_count `n`, version 2 and align 0, and fits iff `n < 256` |
| Nvram.AddrMapEncodes | zigpy_zboss/types/nvids.py:98-111 | an address map serialises iff its records do and there are fewer than 256 |
| Nvram.AddrMapLength | zigpy_zboss/types/nvids.py:98-111 | a serialised map of `n` records is `6 + 16n` bytes |
| Nvram.AddrMapTwoRecords | zigpy_zboss/types/nvids.py:98-111 | two records give byte_count 36 |
| Nvram.AddrMapRoundTrip | zigpy_zboss/types/nvids.py:87-111 | a serialised address map reads back with any rest |
| Nvram.AddrMapReencodes | zigpy_zboss/types/nvids.py:87-111 | for a well-formed address map, `serialize(deserialize(b))` followed by the rest gives `b` |
| Nvram.DeserializeSecureKeys | zigpy_zboss/types/nvids.py:128-141 | the loop reads a u16 length, skips 4 bytes and reads `(length - 4) / 28` entries |
| Nvram.EntryCountOf | zigpy_zboss/types/nvids.py:128-141 | a length of `28n + 4` gives `n` entries and a length of `28n` gives `n - 1` |
| Nvram.SecureKeysRead | zigpy_zboss/types/nvids.py:128-141 | a length `28n + 4`, 4 filler bytes and `n` entries read back as the entries and the rest |
| Nvram.SecureKeysWritten | zigpy_zboss/types/nvids.py:143-151 | serialisation writes a u16 of `28n` followed by the entries, with no filler |
| Nvram.SecureKeysNotInverse | zigpy_zboss/types/nvids.py:128-151 | reading a serialised key list loses an entry (or eats 4 bytes of the rest), so serialisation is not the inverse of deserialisation |
| Nvram.DeserializeNvAddrMap | zigpy_zboss/types/nvram.py:37-46 | the loop reads the 4-byte header and then `length` records |
| Nvram.NvAddrMapReads | zigpy_zboss/types/nvram.py:37-46 | the read succeeds iff the header and `16 * length` record bytes are present, and returns `length` records and the bytes after them |
| Nvram.DatasetRoundTrip | zigpy_zboss/types/nvram.py:7-9 | `NVRAMDataset`, a u16-counted byte list, serialises iff it fits the count and round-trips with any rest |
| Structs.ClustersDecode | zigpy_zboss/types/structs.py:15-16 | a greedy u16 list reads exactly from an even number of bytes, one u16 per two bytes |
| Structs.ClustersEncode | zigpy_zboss/types/structs.py:22-26 | a list of u16 values always serialises |
| Structs.BaseDecodes | zigpy_zboss/types/structs.py:6-21 | the base struct reads iff 8 header bytes and an even number of further bytes are present; the counts are bytes 6 and 7, and the input list takes every cluster |
| Structs.HeaderCounts | zigpy_zboss/types/structs.py:13-14 | the two count fields are bytes 6 and 7 |
| Structs.SlicesPartition | zigpy_zboss/types/structs.py:22-31 | the input, output and remaining slices cover the list in order |
| Structs.DeserializeSplits | zigpy_zboss/types/structs.py:18-32 | succeeds iff the base struct reads; the input clusters are the first `input_clusters_count` entries, the output clusters the next `output_clusters_count`, the remainder reads back as the rest, input ++ output ++ rest is the original list, and counts that fit the list are the lengths |
| Application.NextSequence | zigpy_zboss/zigbee/application.py:115-119 | the next sequence number is below 255 |
| Application.SequenceCounter.GetSequence | zigpy_zboss/zigbee/application.py:115-119 | `get_sequence` stores and returns `(old + 1) % 255`, never 255 |
| Application.SequenceAfterIsSum | zigpy_zboss/zigbee/application.py:115-119 | `n` calls from `s` give `(s + n) % 255` |
| Application.SequencePeriod | zigpy_zboss/zigbee/application.py:115-119 | the counter has period exactly 255 and stays in 0..254 |
| Application.TxOptionsBits | zigpy_zboss/zigbee/application.py:618-624 | ACK sets ACK_ENABLED (0x04), APS encryption sets SECURITY_ENABLED (0x01), and neither gives NONE |
| Application.ShortAddressLittleEndian | zigpy_zboss/zigbee/application.py:627-641 | a 16-bit address becomes the EUI64 `[addr % 256, addr >> 8, 0, 0, 0, 0, 0, 0]` |
| Application.SendPacketSpec | zigpy_zboss/zigbee/application.py:606-666 | with no API it is `DeliveryError`; a ZDO endpoint goes to the ZDO path; otherwise the request carries the tsn, ParamLength 21, DataLength = payload length, the encoded address, Broadcast sent as Group, the option bits and zeros for unset endpoints and radius |
| Application.PrefixSpec | zigpy_zboss/zigbee/application.py:585-587 | `Payload[0:PayloadLength]` is the longest prefix of at most that length; `PayloadLength` is a `uint16_t`, so never negative |
| Application.IndicationSpec | zigpy_zboss/zigbee/application.py:552-597 | an indication succeeds iff the payload has 2 bytes (else `IndexError`); Broadcast wins over Group, which wins over the own NWK address; tsn is `Payload[1]`, data `Payload[0:PayloadLength]`, and the secure bit selects APS encryption |
| Application.ResetFilter | zigpy_zboss/zigbee/application.py:599-604 | a power-on reset is ignored and any other source reports connection loss with that source |
| Application.ReverseAt | zigpy_zboss/zigbee/application.py:337-339 | `[::-1]` puts byte `i` at position `n - 1 - i` |
| Application.PanIdReversed | zigpy_zboss/zigbee/application.py:337-339 | the stored extended PAN ID is the NCP's bytes reversed, and reversing it again gives them back |

## Left out

- Awaiting, timeouts and locks are not modelled. This covers the tx lock
  and 1 s ACK timeout of `uart.send`, the timeout in `_send_to_uart`, the
  blocking-request lock, the reset retry loop and the concurrency semaphore
  of `send_packet`. Only the sequential state changes are modelled.
- `connect` and `connection_lost` propagation are not modelled: they open
  and close a serial transport. In the model that transport is a boolean,
  and the bytes written are a recorded sequence.
- CRC8 and CRC16 are a parameter (`Frames.Checksums`) rather than the
  polynomials: `zigpy_zboss/checksum` is not part of this model.
- The listener classes and `deduplicate_commands` of `zigpy_zboss/utils`
  are not part of this model. A listener is a record of patterns, a
  one-shot flag and an id. Its future is a value in a map, and its
  `resolve` is `Commands.Matching`.
- The zigpy types (EUI64, NWK, Struct, List, ZigbeePacket, AddrMode,
  TransmitOptions) come from a foreign library. They are modelled as byte
  blocks, integers and small datatypes. Their enum numbering is not
  modelled.
- The runtime coercion in `CommandBase.__init__` (`isinstance`, enum and
  SimpleDescriptor conversion) is dynamic-typing plumbing. Parameters have
  typed values instead.
- The command catalogs are declarative data. Only small fixture
  definitions are used.
- `version`'s request to the NCP is a call into the request path. Only its
  decoding of the response is modelled (`Api.Version`).
- `send_packet`'s ZDO path (`zboss_specific_cmd`) is an opaque action
  (`Application.ZdoCommand`). So are `packet_received` and
  `connection_lost`, which are the results of `Application.OnApsdeIndication`
  and `Application.OnNcpReset`.
- `SimpleDescriptor.serialize` is inherited from zigpy's `Struct` and is
  not modelled.
- The initial `_send_sequence` is a constructor parameter of
  `Application.SequenceCounter`.
- Application.SendPacketSpec: requires a well-typed destination. That
  means a 16-bit address for NWK, Group and Broadcast, and 8 bytes for
  IEEE, which zigpy's address types guarantee.
- Uart.SetFrameFlag: states the bitwise OR into the flags. It has no
  separate lemma that the other flag bits are kept.
- Api.VersionSpec: requires the three version fields to be below 2^32,
  which the u32 response fields guarantee.
- Commands.RoundTrip: is not stated for three kinds of command on which the
  code breaks the round trip. First, an explicit `None` for an optional
  parameter followed by a set one: `to_frame` skips the `None` and
  `from_frame` reads the next value into its place
  (`Commands.ExplicitNoneShifts`). Second, an omitted greedy optional
  parameter, which reads back as an empty value
  (`Commands.OmittedGreedyReadsEmpty`). Third, a response with a non-zero
  status and an omitted parameter, which reads back as partial
  (`Commands.FailedStatusReadsPartial`).
- One-shot listeners are removed by a done callback on their future, which
  asyncio schedules with `call_soon`. The model removes them at once, right
  after the dispatch, cancel or timeout that completes the future. A done
  future is never resolved again, so nothing observable is lost.

## Findings

| source | as written | input that shows it | evidently intended | confidence | as-written member | corrected member |
|---|---|---|---|---|---|---|
| zigpy_zboss/types/commands.py:498-527 | `from_frame` stops after the last schema parameter and never checks the remaining payload, so extra bytes are silently accepted | the frame of any complete command whose schema has no greedy parameter, with one byte appended to its payload | a frame with leftover payload bytes is rejected with `ValueError`, as tests/test_commands.py:474-484 expects | not executed | Commands.TrailingBytesAccepted | Commands.StrictRejectsTrailing |

`frame_received` (zigpy_zboss/api.py:146) calls `from_frame` as written, so
`Api.Handle`, `Api.Receive` and the `Api.Zboss` methods use `Commands.Parse`,
and `Api.HandleTrailing` shows that a frame with trailing bytes is
dispatched. `Commands.ParseStrict` is the corrected parser, with
`Commands.StrictRoundTrip` and `Commands.StrictRejectsTrailing` proved
about it.
