/** Command definitions, the command classes CommandsMeta derives from them,
    and command objects: construction from keyword parameters, to_frame,
    from_frame, matches and equality (zigpy_zboss/types/commands.py). */
module Commands {
  import opened Wrappers
  import opened Basic
  import opened Headers
  import opened Frames

  // --------------------------------------------------------- parameter types

  /** The parameter types of the command schemas, by wire shape. Enums,
      NWK and the other named integers are integer types here. */
  datatype ParamType =
    | IntT(kind: IntKind)
    | BytesT                                  // Bytes: the rest of the data
    | ShortBytesT                             // uint8_t length, then the data
    | LongBytesT                              // uint16_t length, then the data
    | FixedListT(length: nat, item: IntKind)  // EUI64, KeyData, ...
    | LVListT(count: IntKind, item: IntKind)
    | CompleteListT(item: IntKind)            // items until the data ends

  /** A parameter value: an integer, a byte string or a list of integers. */
  datatype Value = IntV(i: int) | BytesV(b: Bytes) | ListV(xs: seq<int>)

  /** The value is of the shape the parameter type accepts. */
  predicate HasType(ty: ParamType, v: Value) {
    match ty
    case IntT(_) => v.IntV?
    case BytesT => v.BytesV?
    case ShortBytesT => v.BytesV?
    case LongBytesT => v.BytesV?
    case _ => v.ListV?
  }

  /** LVList counts are unsigned in every schema. */
  predicate WellFormedType(ty: ParamType) {
    ty.LVListT? ==> !ty.count.signed
  }

  /** The deserialiser takes all the remaining data. */
  predicate Greedy(ty: ParamType) {
    ty.BytesT? || ty.CompleteListT?
  }

  /** The deserialiser cannot succeed on empty data. */
  predicate NeedsData(ty: ParamType) {
    match ty
    case BytesT => false
    case CompleteListT(_) => false
    case FixedListT(n, _) => n > 0
    case _ => true
  }

  /** `value.serialize()` of a value of the parameter's type; a value of
      another shape fails the isinstance test with ValueError. */
  function Serialize(ty: ParamType, v: Value): (r: Result<Bytes>)
    ensures !HasType(ty, v) ==> r == Err(ValueError)
  {
    match ty
    case IntT(k) => if v.IntV? then EncodeInt(k, v.i) else Err(ValueError)
    case BytesT => if v.BytesV? then Ok(EncodeBytes(v.b)) else Err(ValueError)
    case ShortBytesT => if v.BytesV? then EncodePrefixed(UInt8, v.b) else Err(ValueError)
    case LongBytesT => if v.BytesV? then EncodePrefixed(UInt16, v.b) else Err(ValueError)
    case FixedListT(n, k) => if v.ListV? then EncodeFixedList(n, IntSer(k), v.xs) else Err(ValueError)
    case LVListT(c, k) => if v.ListV? then EncodeLVList(c, IntSer(k), v.xs) else Err(ValueError)
    case CompleteListT(k) => if v.ListV? then EncodeItems(IntSer(k), v.xs) else Err(ValueError)
  }

  /** `param.type.deserialize(data)`: the value and the data after it. */
  function Deserialize(ty: ParamType, data: Bytes): (r: Result<(Value, Bytes)>)
    ensures r.Ok? ==> HasType(ty, r.value.0)
  {
    match ty
    case IntT(k) =>
      var (x, rest) :- DecodeInt(k, data);
      Ok((IntV(x), rest))
    case BytesT =>
      var (b, rest) := DecodeBytes(data);
      Ok((BytesV(b), rest))
    case ShortBytesT =>
      var (b, rest) :- DecodePrefixed(UInt8, data);
      Ok((BytesV(b), rest))
    case LongBytesT =>
      var (b, rest) :- DecodePrefixed(UInt16, data);
      Ok((BytesV(b), rest))
    case FixedListT(n, k) =>
      var (xs, rest) :- DecodeItems(IntDe(k), data, n);
      Ok((ListV(xs), rest))
    case LVListT(c, k) =>
      var (xs, rest) :- DecodeLVList(c, IntDe(k), data);
      Ok((ListV(xs), rest))
    case CompleteListT(k) =>
      IntCodecRoundTrips(k);
      var xs :- DecodeComplete(IntDe(k), data);
      Ok((ListV(xs), []))
  }

  /** Exactly the types that need data fail on empty data, and they fail
      with the ValueError that from_frame catches. */
  lemma EmptyData(ty: ParamType)
    ensures NeedsData(ty) <==> Deserialize(ty, []).Err?
    ensures NeedsData(ty) ==> Deserialize(ty, []) == Err(ValueError)
  {
    match ty
    case FixedListT(n, k) =>
      if n > 0 {
        assert IntDe(k)([]) == DecodeInt(k, []);
      }
    case CompleteListT(k) =>
      IntCodecRoundTrips(k);
    case _ =>
  }

  /** Parameter round trip: a value that serialises is read back from its
      bytes, and the bytes after it are left, except that a greedy type
      must come last. */
  lemma ValueRoundTrip(ty: ParamType, v: Value, rest: Bytes)
    requires WellFormedType(ty) && Serialize(ty, v).Ok?
    requires Greedy(ty) ==> rest == []
    ensures Deserialize(ty, Serialize(ty, v).value + rest) == Ok((v, rest))
  {
    match ty
    case IntT(k) =>
      IntRoundTrip(k, v.i, rest);
    case BytesT =>
      assert v.b + rest == v.b;
    case ShortBytesT =>
      PrefixedRoundTrip(UInt8, v.b, rest);
    case LongBytesT =>
      PrefixedRoundTrip(UInt16, v.b, rest);
    case FixedListT(n, k) =>
      IntCodecRoundTrips(k);
      FixedListRoundTrip(n, IntSer(k), IntDe(k), v.xs, rest);
    case LVListT(c, k) =>
      IntCodecRoundTrips(k);
      LVListRoundTrip(c, IntSer(k), IntDe(k), v.xs, rest);
    case CompleteListT(k) =>
      IntCodecRoundTrips(k);
      CompleteRoundTrip(IntSer(k), IntDe(k), v.xs);
      assert EncodeItems(IntSer(k), v.xs).value + rest == EncodeItems(IntSer(k), v.xs).value;
  }

  // ------------------------------------------------------ schemas and classes

  datatype Param = Param(name: string, ty: ParamType, optional: bool)

  type Schema = seq<Param>

  predicate DistinctNames(s: Schema) {
    forall i, j :: 0 <= i < j < |s| ==> s[i].name != s[j].name
  }

  /** What the round trip needs of a schema, and every catalog schema has:
      distinct names, unsigned list counts, and a greedy type only last. */
  predicate WellFormedSchema(s: Schema) {
    && DistinctNames(s)
    && (forall i :: 0 <= i < |s| ==> WellFormedType(s[i].ty))
    && (forall i :: 0 <= i < |s| - 1 ==> !Greedy(s[i].ty))
  }

  /** CommandDef. Every catalog definition has a response schema. */
  datatype CommandDef = CommandDef(controlType: byte, commandId: uint16, blocking: bool,
                                   reqSchema: Option<Schema>, rspSchema: Schema)

  datatype Kind = ReqKind | RspKind | IndKind

  /** A command class: the `Req`, `Rsp` or `Ind` class CommandsMeta creates
      for the definition `def` named `name`. */
  datatype CommandClass = CommandClass(name: string, def: CommandDef, kind: Kind)

  function Qualname(c: CommandClass): string {
    c.name + (match c.kind case ReqKind => ".Req" case RspKind => ".Rsp" case IndKind => ".Ind")
  }

  /** The class header: the definition's header, with the control type
      replaced by RSP for the response class. */
  function ClassHeader(c: CommandClass): (r: HLHeader)
    ensures Version(r) == 0 && CommandId(r) == c.def.commandId
    ensures ControlTypeOf(r) == if c.kind == RspKind then Rsp else c.def.controlType
  {
    var header := DefinitionHeader(c.def.commandId, c.def.controlType);
    if c.kind == RspKind then WithType(header, Rsp) else header
  }

  function ClassSchema(c: CommandClass): Schema {
    match c.kind
    case ReqKind => if c.def.reqSchema.Some? then c.def.reqSchema.value else []
    case _ => c.def.rspSchema
  }

  /** Only a request class carries the definition's `blocking`. */
  predicate Blocking(c: CommandClass) {
    c.kind == ReqKind && c.def.blocking
  }

  /** The classes CommandsMeta.__new__ creates for one definition. */
  function ClassesOf(name: string, d: CommandDef): (r: Result<seq<CommandClass>>)
    ensures r.Err? <==> d.reqSchema.None? && d.controlType != Ind
    ensures r.Err? ==> r.error == RuntimeError
    ensures r.Ok? ==> forall c :: c in r.value ==> c.name == name && c.def == d
  {
    if d.reqSchema.Some? then Ok([CommandClass(name, d, ReqKind), CommandClass(name, d, RspKind)])
    else if d.controlType == Ind then Ok([CommandClass(name, d, IndKind)])
    else Err(RuntimeError)
  }

  /** `Req.Rsp` and `Rsp.Req`: the partner class of a request or response. */
  function Partner(c: CommandClass): (r: Option<CommandClass>)
    ensures r.Some? <==> c.kind != IndKind
    ensures r.Some? ==> r.value.name == c.name && r.value.def == c.def && r.value.kind != c.kind
  {
    match c.kind
    case ReqKind => Some(CommandClass(c.name, c.def, RspKind))
    case RspKind => Some(CommandClass(c.name, c.def, ReqKind))
    case IndKind => None
  }

  /** A request definition gives a request class and a response class that
      are each other's partners and whose headers differ only in the control
      type; an indication definition gives one class with the IND header. */
  lemma ClassesOfShape(name: string, d: CommandDef)
    requires ClassesOf(name, d).Ok?
    ensures var cs := ClassesOf(name, d).value;
      if d.reqSchema.Some? then
        && |cs| == 2 && cs[0].kind == ReqKind && cs[1].kind == RspKind
        && Partner(cs[0]) == Some(cs[1]) && Partner(cs[1]) == Some(cs[0])
        && ClassHeader(cs[0]) == DefinitionHeader(d.commandId, d.controlType)
        && ClassHeader(cs[1]) == WithType(ClassHeader(cs[0]), Rsp)
        && ClassSchema(cs[0]) == d.reqSchema.value && ClassSchema(cs[1]) == d.rspSchema
        && (d.controlType != Rsp ==> ClassHeader(cs[0]) != ClassHeader(cs[1]))
        && !Blocking(cs[1]) && (Blocking(cs[0]) <==> d.blocking)
      else
        && |cs| == 1 && cs[0].kind == IndKind && Partner(cs[0]).None?
        && ControlTypeOf(ClassHeader(cs[0])) == Ind && ClassSchema(cs[0]) == d.rspSchema
  {
  }

  // ------------------------------------------------------ keyword parameters

  /** Keyword arguments in the order they were passed; a `None` value is an
      explicit `None`. */
  type Kwargs = seq<(string, Option<Value>)>

  /** The binding of `name`, if any. As in a dict, the last binding wins. */
  function Lookup(kwargs: Kwargs, name: string): Option<Option<Value>> {
    if |kwargs| == 0 then None
    else if kwargs[|kwargs| - 1].0 == name then Some(kwargs[|kwargs| - 1].1)
    else Lookup(kwargs[..|kwargs| - 1], name)
  }

  /** `params.get(name)`: absent and explicit None are alike. */
  function Get(kwargs: Kwargs, name: string): Option<Value> {
    var b := Lookup(kwargs, name);
    if b.Some? then b.value else None
  }

  predicate Declared(s: Schema, name: string) {
    exists j :: 0 <= j < |s| && s[j].name == name
  }

  /** `unknown_params` is not empty. */
  predicate Unknown(s: Schema, kwargs: Kwargs) {
    exists i :: 0 <= i < |kwargs| && !Declared(s, kwargs[i].0)
  }

  /** `optional_params`: the names of the optional parameters, in order. */
  function OptionalNames(s: Schema): (r: seq<string>)
    ensures forall x :: x in r <==> exists j :: 0 <= j < |s| && s[j].optional && s[j].name == x
  {
    if |s| == 0 then []
    else
      var last := s[|s| - 1];
      assert forall j :: 0 <= j < |s| - 1 ==> s[..|s| - 1][j] == s[j];
      OptionalNames(s[..|s| - 1]) + (if last.optional then [last.name] else [])
  }

  /** `given_optional`: the keyword names that name optional parameters, in
      the order they were passed. */
  function GivenOptional(kwargs: Kwargs, optional: seq<string>): seq<string> {
    if |kwargs| == 0 then []
    else
      var last := kwargs[|kwargs| - 1].0;
      GivenOptional(kwargs[..|kwargs| - 1], optional) + (if last in optional then [last] else [])
  }

  function Min(a: nat, b: nat): nat { if a <= b then a else b }

  /** `optional_params[:len(given_optional)] != given_optional`: an optional
      parameter was given while one before it was not. */
  predicate SkipsOptional(s: Schema, kwargs: Kwargs) {
    var o := OptionalNames(s);
    var g := GivenOptional(kwargs, o);
    o[..Min(|g|, |o|)] != g
  }

  /** `missing_params` is not empty: a required name was not passed. */
  predicate Missing(s: Schema, kwargs: Kwargs) {
    exists j :: 0 <= j < |s| && s[j].name !in OptionalNames(s) && Lookup(kwargs, s[j].name).None?
  }

  /** A bound parameter: the schema entry and its value, None when unset. */
  datatype Bound = Bound(param: Param, value: Option<Value>)

  /** One turn of the binding loop of CommandBase.__init__ for the binding
      `arg` of the parameter's name. */
  function BindParam(p: Param, partial: bool, arg: Option<Option<Value>>): (r: Result<Option<Value>>)
    ensures r.Ok? ==> r.value == (if arg.Some? then arg.value else None)
    ensures r.Ok? && r.value.None? ==> partial || p.optional
    ensures r.Ok? && r.value.Some? ==> Serialize(p.ty, r.value.value).Ok?
    ensures arg == Some(None) && !partial && !p.optional ==> r == Err(ValueError)
  {
    var v := if arg.Some? then arg.value else None;
    if v.None? && (partial || p.optional) then Ok(None)
    else if arg.None? then Err(KeyError)         // `params[param.name]`
    else if v.None? then Err(ValueError)         // None is of no parameter type
    else if Serialize(p.ty, v.value).Err? then Err(ValueError)
    else Ok(v)
  }

  /** The binding loop from the `i`-th parameter on. */
  function BindFrom(s: Schema, partial: bool, kwargs: Kwargs, i: nat): Result<seq<Bound>>
    requires i <= |s|
    decreases |s| - i
  {
    if i == |s| then Ok([])
    else
      var v :- BindParam(s[i], partial, Lookup(kwargs, s[i].name));
      var tail :- BindFrom(s, partial, kwargs, i + 1);
      Ok([Bound(s[i], v)] + tail)
  }

  /** The loop binds every parameter from the `i`-th on, or fails. */
  lemma {:induction false} BindFromSpec(s: Schema, partial: bool, kwargs: Kwargs, i: nat)
    requires i <= |s|
    ensures var r := BindFrom(s, partial, kwargs, i);
      && (r.Ok? <==> forall j :: i <= j < |s| ==> BindParam(s[j], partial, Lookup(kwargs, s[j].name)).Ok?)
      && (r.Ok? ==> |r.value| == |s| - i)
      && (r.Ok? ==> forall j :: 0 <= j < |r.value| ==>
            r.value[j].param == s[i + j] && Ok(r.value[j].value) == BindParam(s[i + j], partial, Lookup(kwargs, s[i + j].name)))
    decreases |s| - i
  {
    if i < |s| {
      BindFromSpec(s, partial, kwargs, i + 1);
    }
  }

  /** A command object: its class, whether it is partial, and its bound
      parameters in schema order. */
  datatype Command = Command(cls: CommandClass, partial: bool, bound: seq<Bound>)

  /** Bound parameters in the order and with the entries of a schema. */
  predicate Follows(bs: seq<Bound>, s: Schema) {
    |bs| == |s| && forall j :: 0 <= j < |s| ==> bs[j].param == s[j]
  }

  /** The bound parameters follow the class schema. */
  predicate Shaped(c: Command) {
    Follows(c.bound, ClassSchema(c.cls))
  }

  /** CommandBase.__init__ as a value. */
  function Construct(cls: CommandClass, partial: bool, kwargs: Kwargs): (r: Result<Command>)
    ensures Unknown(ClassSchema(cls), kwargs) ==> r == Err(KeyError)
    ensures !partial && (SkipsOptional(ClassSchema(cls), kwargs) || Missing(ClassSchema(cls), kwargs)) ==> r == Err(KeyError)
    ensures r.Ok? ==> r.value.cls == cls && r.value.partial == partial
  {
    var s := ClassSchema(cls);
    if Unknown(s, kwargs) then Err(KeyError)
    else if !partial && SkipsOptional(s, kwargs) then Err(KeyError)
    else if !partial && Missing(s, kwargs) then Err(KeyError)
    else
      var bound :- BindFrom(s, partial, kwargs, 0);
      Ok(Command(cls, partial, bound))
  }

  /** What construction promises: it succeeds exactly when no name is
      unknown, a complete command skips no optional parameter and misses no
      required one, and every value binds; the command then holds each
      parameter's given value, None only where the parameter is optional or
      the command partial, and every set value serialises. */
  lemma ConstructSpec(cls: CommandClass, partial: bool, kwargs: Kwargs)
    ensures var s := ClassSchema(cls); var r := Construct(cls, partial, kwargs);
      && (r.Ok? <==>
           && !Unknown(s, kwargs)
           && (!partial ==> !SkipsOptional(s, kwargs) && !Missing(s, kwargs))
           && forall j :: 0 <= j < |s| ==> BindParam(s[j], partial, Lookup(kwargs, s[j].name)).Ok?)
      && (r.Ok? ==> Shaped(r.value))
      && (r.Ok? ==> forall j :: 0 <= j < |r.value.bound| ==>
           && r.value.bound[j].value == Get(kwargs, r.value.bound[j].param.name)
           && (r.value.bound[j].value.None? ==> partial || r.value.bound[j].param.optional)
           && (r.value.bound[j].value.Some? ==> Serialize(r.value.bound[j].param.ty, r.value.bound[j].value.value).Ok?))
  {
    BindFromSpec(ClassSchema(cls), partial, kwargs, 0);
  }

  function PrependBound(xs: seq<Bound>, r: Result<seq<Bound>>): Result<seq<Bound>> {
    match r
    case Ok(ys) => Ok(xs + ys)
    case Err(e) => Err(e)
  }

  /** The binding loop of CommandBase.__init__. */
  method BindParams(s: Schema, partial: bool, kwargs: Kwargs) returns (r: Result<seq<Bound>>)
    ensures r == BindFrom(s, partial, kwargs, 0)
  {
    var bound: seq<Bound> := [];
    var i := 0;
    match BindFrom(s, partial, kwargs, 0) {
      case Ok(ys) => assert [] + ys == ys;
      case Err(_) =>
    }
    while i < |s|
      invariant 0 <= i <= |s|
      invariant BindFrom(s, partial, kwargs, 0) == PrependBound(bound, BindFrom(s, partial, kwargs, i))
      decreases |s| - i
    {
      var v := BindParam(s[i], partial, Lookup(kwargs, s[i].name));
      if v.Err? {
        return Err(v.error);
      }
      match BindFrom(s, partial, kwargs, i + 1) {
        case Ok(ys) => assert bound + ([Bound(s[i], v.value)] + ys) == bound + [Bound(s[i], v.value)] + ys;
        case Err(_) =>
      }
      bound := bound + [Bound(s[i], v.value)];
      i := i + 1;
    }
    assert bound + [] == bound;
    return Ok(bound);
  }

  /** CommandBase.__init__: the parameter checks, then the binding loop. */
  method New(cls: CommandClass, partial: bool, kwargs: Kwargs) returns (r: Result<Command>)
    ensures r == Construct(cls, partial, kwargs)
  {
    var s := ClassSchema(cls);
    if Unknown(s, kwargs) {
      return Err(KeyError);
    }
    if !partial {
      if SkipsOptional(s, kwargs) {
        return Err(KeyError);
      }
      if Missing(s, kwargs) {
        return Err(KeyError);
      }
    }
    var bound := BindParams(s, partial, kwargs);
    if bound.Err? {
      return Err(bound.error);
    }
    return Ok(Command(cls, partial, bound.value));
  }

  /** `__getattribute__` for a parameter name: its bound value, None when
      unset, and AttributeError for a name the schema does not have. */
  function GetAttr(c: Command, key: string): (r: Result<Option<Value>>)
    decreases |c.bound|
    ensures r.Err? <==> forall j :: 0 <= j < |c.bound| ==> c.bound[j].param.name != key
    ensures r.Err? ==> r.error == AttributeError
    ensures r.Ok? ==> exists j :: 0 <= j < |c.bound| && c.bound[j].param.name == key && c.bound[j].value == r.value
  {
    if |c.bound| == 0 then Err(AttributeError)
    else if c.bound[|c.bound| - 1].param.name == key then Ok(c.bound[|c.bound| - 1].value)
    else
      var r := GetAttr(Command(c.cls, c.partial, c.bound[..|c.bound| - 1]), key);
      assert forall j :: 0 <= j < |c.bound| - 1 ==> c.bound[..|c.bound| - 1][j] == c.bound[j];
      r
  }

  // ------------------------------------------------------------- to_frame

  /** The serialised values of the bound parameters from the `i`-th on,
      unset ones skipped (the `chunks` of to_frame). */
  function EncodeFrom(bs: seq<Bound>, i: nat): (r: Result<Bytes>)
    requires i <= |bs|
    ensures r.Ok? <==> forall j :: i <= j < |bs| && bs[j].value.Some? ==> Serialize(bs[j].param.ty, bs[j].value.value).Ok?
    decreases |bs| - i
  {
    if i == |bs| then Ok([])
    else
      var head :- if bs[i].value.None? then Ok([]) else Serialize(bs[i].param.ty, bs[i].value.value);
      var tail :- EncodeFrom(bs, i + 1);
      Ok(head + tail)
  }

  /** CommandBase.to_frame as a value: a single unfragmented frame whose
      packet carries the class header and the serialised parameters;
      sequence flag and crc8 are left for the UART layer. */
  function FrameOf(c: Command): (r: Result<Frame>)
    ensures c.partial ==> r == Err(ValueError)
    ensures r.Ok? <==> !c.partial && EncodeFrom(c.bound, 0).Ok? && HLLength(HLPacket(Some(ClassHeader(c.cls)), EncodeFrom(c.bound, 0).value)).Ok?
    ensures r.Ok? ==> r.value.hl == Some(HLPacket(Some(ClassHeader(c.cls)), EncodeFrom(c.bound, 0).value))
    ensures r.Ok? ==> var ll := r.value.ll;
      && SignatureOf(ll) == FrameSignature && FrameType(ll) == ApiHlType && Crc8Of(ll) == 0
      && Size(ll) == (HLLength(r.value.hl.value).value + 5) % P16
      && Flags(ll) == 0xC0
  {
    if c.partial then Err(ValueError)
    else
      var payload :- EncodeFrom(c.bound, 0);
      var p := HLPacket(Some(ClassHeader(c.cls)), payload);
      var length: int :- HLLength(p);
      assert BitOr(LastFrag, FirstFrag) == 0xC0;
      Ok(Frame(WithFlags(BaseHeader(length + 5), BitOr(LastFrag, FirstFrag)), Some(p)))
  }

  function PrependBytes(xs: Bytes, r: Result<Bytes>): Result<Bytes> {
    match r
    case Ok(ys) => Ok(xs + ys)
    case Err(e) => Err(e)
  }

  /** The chunk loop of to_frame. */
  method Payload(bs: seq<Bound>) returns (r: Result<Bytes>)
    ensures r == EncodeFrom(bs, 0)
  {
    var chunks: Bytes := [];
    var i := 0;
    match EncodeFrom(bs, 0) {
      case Ok(ys) => assert [] + ys == ys;
      case Err(_) =>
    }
    while i < |bs|
      invariant 0 <= i <= |bs|
      invariant EncodeFrom(bs, 0) == PrependBytes(chunks, EncodeFrom(bs, i))
      decreases |bs| - i
    {
      if bs[i].value.Some? {
        var chunk := Serialize(bs[i].param.ty, bs[i].value.value);
        if chunk.Err? {
          return Err(chunk.error);
        }
        match EncodeFrom(bs, i + 1) {
          case Ok(ys) => assert chunks + (chunk.value + ys) == chunks + chunk.value + ys;
          case Err(_) =>
        }
        chunks := chunks + chunk.value;
      } else {
        match EncodeFrom(bs, i + 1) {
          case Ok(ys) => assert [] + ys == ys;
          case Err(_) =>
        }
      }
      i := i + 1;
    }
    assert chunks + [] == chunks;
    return Ok(chunks);
  }

  /** CommandBase.to_frame. */
  method ToFrame(c: Command) returns (r: Result<Frame>)
    ensures r == FrameOf(c)
  {
    if c.partial {
      return Err(ValueError);
    }
    var payload := Payload(c.bound);
    if payload.Err? {
      return Err(payload.error);
    }
    var p := HLPacket(Some(ClassHeader(c.cls)), payload.value);
    var length := HLLength(p);
    if length.Err? {
      return Err(length.error);
    }
    var size := length.value as int + 5;
    var ll := WithFlags(BaseHeader(size), BitOr(LastFrag, FirstFrag));
    return Ok(Frame(ll, Some(p)));
  }

  // ----------------------------------------------------------- from_frame

  /** How the parameter loop of from_frame ends: all parameters read or an
      optional one missing (the loop's end or its `break`), a response cut
      short by a non-zero status, or an exception. `rest` is the data left
      unread. */
  datatype Parsed = Done(params: Kwargs, rest: Bytes) | Stopped(params: Kwargs) | Failed(error: Error)

  /** The parameter loop of from_frame from the `i`-th parameter on, with
      `params` read so far and `data` unread. */
  function ParseFrom(s: Schema, i: nat, data: Bytes, isRsp: bool, params: Kwargs): Parsed
    requires i <= |s|
    decreases |s| - i
  {
    if i == |s| then Done(params, data)
    else
      match Deserialize(s[i].ty, data)
      case Ok((v, rest)) => ParseFrom(s, i + 1, rest, isRsp, params + [(s[i].name, Some(v))])
      case Err(e) =>
        if e != ValueError then Failed(e)
        else if isRsp && Lookup(params, "StatusCode").None? then Failed(KeyError)
        else if isRsp && Lookup(params, "StatusCode") != Some(Some(IntV(0))) then Stopped(params)
        else if |data| == 0 && s[i].optional then Done(params, data)
        else Failed(ValueError)
  }

  /** CommandBase.from_frame as a value. */
  function Parse(cls: CommandClass, f: Frame): (r: Result<Command>)
    ensures f.hl.None? ==> r == Err(AttributeError)
    ensures f.hl.Some? && f.hl.value.header != Some(ClassHeader(cls)) ==> r == Err(ValueError)
    ensures r.Ok? ==> r.value.cls == cls
  {
    if f.hl.None? then Err(AttributeError)
    else if f.hl.value.header != Some(ClassHeader(cls)) then Err(ValueError)
    else
      var isRsp := ControlTypeOf(ClassHeader(cls)) == Rsp;
      match ParseFrom(ClassSchema(cls), 0, f.hl.value.data, isRsp, [])
      case Done(params, _) => Construct(cls, false, params)
      case Stopped(params) => Construct(cls, true, params)
      case Failed(e) => Err(e)
  }

  /** CommandBase.from_frame. */
  method FromFrame(cls: CommandClass, f: Frame) returns (r: Result<Command>)
    ensures r == Parse(cls, f)
  {
    if f.hl.None? {
      return Err(AttributeError);
    }
    if f.hl.value.header != Some(ClassHeader(cls)) {
      return Err(ValueError);
    }
    var s := ClassSchema(cls);
    var isRsp := ControlTypeOf(f.hl.value.header.value) == Rsp;
    var data := f.hl.value.data;
    var params: Kwargs := [];
    var i := 0;
    while i < |s|
      invariant 0 <= i <= |s|
      invariant ParseFrom(s, 0, f.hl.value.data, isRsp, []) == ParseFrom(s, i, data, isRsp, params)
      decreases |s| - i
    {
      var step := Deserialize(s[i].ty, data);
      if step.Ok? {
        params := params + [(s[i].name, Some(step.value.0))];
        data := step.value.1;
        i := i + 1;
      } else {
        if step.error != ValueError {
          return Err(step.error);
        }
        if isRsp {
          var status := Lookup(params, "StatusCode");
          if status.None? {
            return Err(KeyError);
          }
          if status != Some(Some(IntV(0))) {
            r := New(cls, true, params);
            return;
          }
        }
        if |data| == 0 && s[i].optional {
          break;
        }
        return Err(ValueError);
      }
    }
    r := New(cls, false, params);
  }

  // ------------------------------------------------------ matches and ==

  /** CommandBase.matches: same class, and every set parameter of `a` has
      the same value in `b`. */
  predicate Matching(a: Command, b: Command) {
    && a.cls == b.cls
    && forall i :: 0 <= i < |a.bound| && i < |b.bound| && a.bound[i].value.Some? ==> a.bound[i].value == b.bound[i].value
  }

  /** CommandBase.matches, with its early `return False`. */
  method Matches(a: Command, b: Command) returns (r: bool)
    ensures r == Matching(a, b)
  {
    if a.cls != b.cls {
      return false;
    }
    var i := 0;
    while i < |a.bound| && i < |b.bound|
      invariant 0 <= i <= |a.bound| && i <= |b.bound|
      invariant forall j :: 0 <= j < i && a.bound[j].value.Some? ==> a.bound[j].value == b.bound[j].value
      decreases |a.bound| - i
    {
      if a.bound[i].value.Some? && a.bound[i].value != b.bound[i].value {
        return false;
      }
      i := i + 1;
    }
    return true;
  }

  /** CommandBase.__eq__: same class and same bound parameters. Whether a
      command is partial does not enter into it. */
  predicate Equal(a: Command, b: Command) {
    a.cls == b.cls && a.bound == b.bound
  }

  lemma MatchingReflexive(a: Command)
    ensures Matching(a, a)
  {
  }

  /** Matching is a superset of equality. */
  lemma EqualImpliesMatching(a: Command, b: Command)
    requires Equal(a, b)
    ensures Matching(a, b) && Matching(b, a)
  {
  }

  /** Matching is not symmetric: a command with a parameter unset matches
      one with it set, never the other way round. */
  lemma MatchingOneWay(a: Command, b: Command, i: nat)
    requires Matching(a, b) && i < |a.bound| && i < |b.bound|
    requires a.bound[i].value.None? && b.bound[i].value.Some?
    ensures !Matching(b, a)
  {
  }

  /** Commands of one shape that match each other both ways are equal. */
  lemma MutualMatchingIsEqual(a: Command, b: Command)
    requires Shaped(a) && Shaped(b) && Matching(a, b) && Matching(b, a)
    ensures Equal(a, b)
  {
    assert forall i :: 0 <= i < |a.bound| ==> a.bound[i].value == b.bound[i].value by {
      forall i | 0 <= i < |a.bound|
        ensures a.bound[i].value == b.bound[i].value
      {
        assert i < |b.bound|;
      }
    }
    assert forall i :: 0 <= i < |a.bound| ==> a.bound[i] == b.bound[i];
  }

  /** A command with every parameter unset, such as an all-None partial
      response used as a listener pattern, matches every command of its class. */
  lemma UnsetMatchesAll(a: Command, b: Command)
    requires a.cls == b.cls
    requires forall i :: 0 <= i < |a.bound| ==> a.bound[i].value.None?
    ensures Matching(a, b)
  {
  }

  // ------------------------------------------------------------ round trip

  /** The keyword arguments from_frame collects from the first `n` bound
      parameters. */
  function Kw(bs: seq<Bound>, n: nat): (r: Kwargs)
    requires n <= |bs|
    ensures |r| == n && forall i :: 0 <= i < n ==> r[i] == (bs[i].param.name, bs[i].value)
  {
    if n == 0 then [] else Kw(bs, n - 1) + [(bs[n - 1].param.name, bs[n - 1].value)]
  }

  /** The first `m` parameters are set and the rest unset and optional. */
  predicate PresentPrefix(bs: seq<Bound>, m: nat) {
    && m <= |bs|
    && (forall j :: 0 <= j < m ==> bs[j].value.Some?)
    && (forall j :: m <= j < |bs| ==> bs[j].value.None? && bs[j].param.optional)
  }

  /** One of the first `m` parameters is a StatusCode set to 0. */
  predicate StatusZero(bs: seq<Bound>, m: nat) {
    exists j :: 0 <= j < m && j < |bs| && bs[j].param.name == "StatusCode" && bs[j].value == Some(IntV(0))
  }

  lemma {:induction false} LookupKw(s: Schema, bs: seq<Bound>, n: nat, j: nat)
    requires DistinctNames(s) && Follows(bs, s) && n <= |bs| && j < |bs|
    ensures Lookup(Kw(bs, n), s[j].name) == if j < n then Some(bs[j].value) else None
    decreases n
  {
    if n > 0 {
      var k0 := Kw(bs, n - 1);
      var x := (bs[n - 1].param.name, bs[n - 1].value);
      assert Kw(bs, n) == k0 + [x];
      assert (k0 + [x])[..|k0|] == k0;
      if j != n - 1 {
        assert s[j].name != s[n - 1].name;
        LookupKw(s, bs, n - 1, j);
      }
    }
  }

  lemma {:induction false} UnsetEncodeEmpty(bs: seq<Bound>, m: nat)
    requires m <= |bs| && forall j :: m <= j < |bs| ==> bs[j].value.None?
    ensures EncodeFrom(bs, m) == Ok([])
    decreases |bs| - m
  {
    if m < |bs| {
      UnsetEncodeEmpty(bs, m + 1);
      var e: Bytes := [];
      assert e + e == e;
    }
  }

  /** The parameter loop stops at the first unset parameter. */
  lemma ParseStopsAtUnset(s: Schema, bs: seq<Bound>, m: nat, extra: Bytes, isRsp: bool)
    requires DistinctNames(s) && Follows(bs, s) && PresentPrefix(bs, m)
    requires m < |s| ==> extra == [] && NeedsData(s[m].ty) && (isRsp ==> StatusZero(bs, m))
    ensures EncodeFrom(bs, m) == Ok([])
    ensures ParseFrom(s, m, extra, isRsp, Kw(bs, m)) == Done(Kw(bs, m), extra)
  {
    UnsetEncodeEmpty(bs, m);
    if m < |s| {
      EmptyData(s[m].ty);
      if isRsp {
        var j :| 0 <= j < m && j < |bs| && bs[j].param.name == "StatusCode" && bs[j].value == Some(IntV(0));
        LookupKw(s, bs, m, j);
      }
    }
  }

  /** One turn of the parameter loop reads one set parameter back. */
  lemma ParseStep(s: Schema, bs: seq<Bound>, m: nat, i: nat, extra: Bytes, isRsp: bool)
    requires WellFormedSchema(s) && Follows(bs, s) && PresentPrefix(bs, m) && i < m
    requires EncodeFrom(bs, i).Ok?
    requires m < |s| ==> extra == []
    requires extra != [] ==> forall j :: 0 <= j < |s| ==> !Greedy(s[j].ty)
    ensures EncodeFrom(bs, i + 1).Ok?
    ensures ParseFrom(s, i, EncodeFrom(bs, i).value + extra, isRsp, Kw(bs, i))
         == ParseFrom(s, i + 1, EncodeFrom(bs, i + 1).value + extra, isRsp, Kw(bs, i + 1))
  {
    var v := bs[i].value.value;
    var head := Serialize(s[i].ty, v).value;
    var tail := EncodeFrom(bs, i + 1).value;
    assert EncodeFrom(bs, i).value == head + tail;
    ValueRoundTrip(s[i].ty, v, tail + extra);
    assert head + tail + extra == head + (tail + extra);
  }

  /** The parameter loop reads back the serialised parameters from the
      `i`-th on, and stops at the first unset one, leaving what follows. */
  lemma {:induction false} ParseEncoded(s: Schema, bs: seq<Bound>, m: nat, i: nat, extra: Bytes, isRsp: bool)
    requires WellFormedSchema(s) && Follows(bs, s) && PresentPrefix(bs, m) && i <= m
    requires EncodeFrom(bs, i).Ok?
    requires m < |s| ==> extra == [] && NeedsData(s[m].ty) && (isRsp ==> StatusZero(bs, m))
    requires extra != [] ==> forall j :: 0 <= j < |s| ==> !Greedy(s[j].ty)
    ensures ParseFrom(s, i, EncodeFrom(bs, i).value + extra, isRsp, Kw(bs, i)) == Done(Kw(bs, m), extra)
    decreases m - i
  {
    if i == m {
      ParseStopsAtUnset(s, bs, m, extra, isRsp);
      assert EncodeFrom(bs, i).value + extra == extra;
    } else {
      ParseStep(s, bs, m, i, extra, isRsp);
      ParseEncoded(s, bs, m, i + 1, extra, isRsp);
    }
  }

  lemma {:induction false} GivenOptionalKw(s: Schema, bs: seq<Bound>, n: nat)
    requires DistinctNames(s) && Follows(bs, s) && n <= |s|
    ensures GivenOptional(Kw(bs, n), OptionalNames(s)) == OptionalNames(s[..n])
    decreases n
  {
    if n > 0 {
      GivenOptionalKw(s, bs, n - 1);
      assert Kw(bs, n)[..n - 1] == Kw(bs, n - 1);
      assert s[..n][..n - 1] == s[..n - 1];
      assert s[..n][n - 1] == s[n - 1];
      assert s[n - 1].name in OptionalNames(s) <==> s[n - 1].optional;
    } else {
      assert s[..0] == [];
    }
  }

  lemma {:induction false} OptionalPrefix(s: Schema, n: nat)
    requires n <= |s|
    ensures OptionalNames(s[..n]) <= OptionalNames(s)
    decreases |s| - n
  {
    if n == |s| {
      assert s[..n] == s;
    } else {
      OptionalPrefix(s, n + 1);
      assert s[..n + 1][..n] == s[..n];
    }
  }

  lemma KwDeclared(s: Schema, bs: seq<Bound>, m: nat)
    requires Follows(bs, s) && m <= |bs|
    ensures !Unknown(s, Kw(bs, m))
  {
    var kw := Kw(bs, m);
    forall i | 0 <= i < |kw|
      ensures Declared(s, kw[i].0)
    {
      assert s[i].name == kw[i].0;
    }
  }

  lemma KwSkipsNone(s: Schema, bs: seq<Bound>, m: nat)
    requires DistinctNames(s) && Follows(bs, s) && m <= |bs|
    ensures !SkipsOptional(s, Kw(bs, m))
  {
    GivenOptionalKw(s, bs, m);
    OptionalPrefix(s, m);
  }

  lemma KwBinds(s: Schema, bs: seq<Bound>, m: nat)
    requires DistinctNames(s) && Follows(bs, s) && PresentPrefix(bs, m)
    requires EncodeFrom(bs, 0).Ok?
    ensures !Missing(s, Kw(bs, m))
    ensures BindFrom(s, false, Kw(bs, m), 0) == Ok(bs)
  {
    var kw := Kw(bs, m);
    KwLookups(s, bs, m);
    KwBindsEach(s, bs, m);
    BindFromSpec(s, false, kw, 0);
    var bound := BindFrom(s, false, kw, 0).value;
    assert bound == bs;
  }

  /** The keyword arguments hold the value of each set parameter and
      nothing for the unset ones. */
  lemma KwLookups(s: Schema, bs: seq<Bound>, m: nat)
    requires DistinctNames(s) && Follows(bs, s) && PresentPrefix(bs, m)
    ensures forall j :: 0 <= j < |s| ==> Lookup(Kw(bs, m), s[j].name) == if j < m then Some(bs[j].value) else None
  {
    forall j | 0 <= j < |s|
      ensures Lookup(Kw(bs, m), s[j].name) == if j < m then Some(bs[j].value) else None
    {
      LookupKw(s, bs, m, j);
    }
  }

  /** Each parameter binds to the value it had. */
  lemma KwBindsEach(s: Schema, bs: seq<Bound>, m: nat)
    requires Follows(bs, s) && PresentPrefix(bs, m)
    requires EncodeFrom(bs, 0).Ok?
    requires forall j :: 0 <= j < |s| ==> Lookup(Kw(bs, m), s[j].name) == if j < m then Some(bs[j].value) else None
    ensures forall j :: 0 <= j < |s| ==> BindParam(s[j], false, Lookup(Kw(bs, m), s[j].name)) == Ok(bs[j].value)
  {
    forall j | 0 <= j < |s|
      ensures BindParam(s[j], false, Lookup(Kw(bs, m), s[j].name)) == Ok(bs[j].value)
    {
    }
  }

  /** `cls(**params)` on the parameters read back builds the command. */
  lemma ConstructParsed(c: Command, m: nat)
    requires DistinctNames(ClassSchema(c.cls)) && Shaped(c) && PresentPrefix(c.bound, m) && !c.partial
    requires EncodeFrom(c.bound, 0).Ok?
    ensures Construct(c.cls, false, Kw(c.bound, m)) == Ok(c)
  {
    var s := ClassSchema(c.cls);
    KwDeclared(s, c.bound, m);
    KwSkipsNone(s, c.bound, m);
    KwBinds(s, c.bound, m);
  }

  /** from_frame inverts to_frame, for a schema whose greedy type comes
      last, on a command whose set parameters are the first `m`: reading
      stops at the first unset parameter, which must need data, and a
      response missing parameters must carry status 0. */
  lemma RoundTrip(c: Command, m: nat)
    requires WellFormedSchema(ClassSchema(c.cls)) && Shaped(c) && PresentPrefix(c.bound, m)
    requires m < |c.bound| ==> NeedsData(c.bound[m].param.ty)
    requires m < |c.bound| && ControlTypeOf(ClassHeader(c.cls)) == Rsp ==> StatusZero(c.bound, m)
    requires FrameOf(c).Ok?
    ensures Parse(c.cls, FrameOf(c).value) == Ok(c)
  {
    var s := ClassSchema(c.cls);
    var isRsp := ControlTypeOf(ClassHeader(c.cls)) == Rsp;
    ParseEncoded(s, c.bound, m, 0, [], isRsp);
    assert EncodeFrom(c.bound, 0).value + [] == EncodeFrom(c.bound, 0).value;
    ConstructParsed(c, m);
  }

  // ------------------------------------------------ where the round trip breaks

  /** Two optional u8 parameters and a required u8 status, for the
      examples below. */
  const OptA := Param("a", IntT(UInt8), true)
  const OptB := Param("b", IntT(UInt8), true)
  const OptRest := Param("a", BytesT, true)
  const Status := Param("StatusCode", IntT(UInt8), false)

  /** The request class and the response class of a definition with the
      given schemas. */
  function ExampleClass(req: Schema, rsp: Schema, kind: Kind): CommandClass {
    CommandClass("Example", CommandDef(Req, 0x0001, false, Some(req), rsp), kind)
  }

  /** An explicit None for an optional parameter passes the skip check of
      __init__, because the name is given, and to_frame omits it, so
      from_frame reads the next value into the slot of the None. */
  lemma ExplicitNoneShifts()
    ensures var cls := ExampleClass([OptA, OptB], [], ReqKind);
      var c := Command(cls, false, [Bound(OptA, None), Bound(OptB, Some(IntV(5)))]);
      && Construct(cls, false, [("a", None), ("b", Some(IntV(5)))]) == Ok(c)
      && FrameOf(c).Ok?
      && Parse(cls, FrameOf(c).value) == Ok(Command(cls, false, [Bound(OptA, Some(IntV(5))), Bound(OptB, None)]))
  {
    var cls := ExampleClass([OptA, OptB], [], ReqKind);
    var c := Command(cls, false, [Bound(OptA, None), Bound(OptB, Some(IntV(5)))]);
    NoneThenSetBuilds();
    NoneThenSetFrame(c);
    ByteThenNothingReads(cls);
  }

  /** `__init__(a=None, b=5)` on two optional parameters. */
  lemma NoneThenSetBuilds()
    ensures var kw: Kwargs := [("a", None), ("b", Some(IntV(5)))];
      Construct(ExampleClass([OptA, OptB], [], ReqKind), false, kw)
        == Ok(Command(ExampleClass([OptA, OptB], [], ReqKind), false, [Bound(OptA, None), Bound(OptB, Some(IntV(5)))]))
  {
    var s := [OptA, OptB];
    var kw: Kwargs := [("a", None), ("b", Some(IntV(5)))];
    assert kw[..1] == [("a", None)];
    assert Lookup(kw, "a") == Some(None) && Lookup(kw, "b") == Some(Some(IntV(5)));
    TwoOptionalNames();
    assert Declared(s, "a") && Declared(s, "b") by {
      assert s[0].name == "a" && s[1].name == "b";
    }
    assert !Unknown(s, kw);
    assert GivenOptional(kw, ["a", "b"]) == ["a", "b"] by {
      assert kw[..1][..0] == [];
    }
    assert !Missing(s, kw);
    OneByte(5);
    assert BindParam(OptB, false, Some(Some(IntV(5)))) == Ok(Some(IntV(5)));
    assert s[1] == OptB && Lookup(kw, s[1].name) == Some(Some(IntV(5)));
    assert BindFrom(s, false, kw, 2) == Ok([]);
    assert [Bound(OptB, Some(IntV(5)))] + [] == [Bound(OptB, Some(IntV(5)))];
    assert BindFrom(s, false, kw, 1) == Ok([Bound(OptB, Some(IntV(5)))]);
    assert s[0] == OptA && BindParam(OptA, false, Lookup(kw, s[0].name)) == Ok(None);
    assert [Bound(OptA, None)] + [Bound(OptB, Some(IntV(5)))] == [Bound(OptA, None), Bound(OptB, Some(IntV(5)))];
    assert BindFrom(s, false, kw, 0) == Ok([Bound(OptA, None), Bound(OptB, Some(IntV(5)))]);
    assert !SkipsOptional(s, kw);
    assert ClassSchema(ExampleClass(s, [], ReqKind)) == s;
  }

  /** The frame of that command carries the one byte of `b`. */
  lemma NoneThenSetFrame(c: Command)
    requires c.bound == [Bound(OptA, None), Bound(OptB, Some(IntV(5)))] && !c.partial
    ensures FrameOf(c).Ok? && FrameOf(c).value.hl == Some(HLPacket(Some(ClassHeader(c.cls)), [5]))
  {
    OneByte(5);
    assert EncodeFrom(c.bound, 2) == Ok([]);
    var none: Bytes := [];
    assert EncodeFrom(c.bound, 1) == Ok([5] + none);
    assert EncodeFrom(c.bound, 0) == Ok(none + [5]);
    assert none + [5] == [5];
    var p := HLPacket(Some(ClassHeader(c.cls)), [5]);
    assert |HLBody(p)| <= 5;
    assert HLLength(p).Ok?;
  }

  /** from_frame on the payload `[5]` fills `a` and leaves `b` unset. */
  lemma ByteThenNothingReads(cls: CommandClass)
    requires cls == ExampleClass([OptA, OptB], [], ReqKind)
    ensures forall f: Frame :: f.hl == Some(HLPacket(Some(ClassHeader(cls)), [5])) ==>
      Parse(cls, f) == Ok(Command(cls, false, [Bound(OptA, Some(IntV(5))), Bound(OptB, None)]))
  {
    var s := [OptA, OptB];
    var params: Kwargs := [("a", Some(IntV(5)))];
    IntRoundTrip(UInt8, 5, []);
    EmptyData(IntT(UInt8));
    assert ParseFrom(s, 1, [], false, params) == Done(params, []);
    assert ParseFrom(s, 0, [5], false, []) == Done(params, []);
    OneOfTwoBuilds(cls, params);
  }

  /** `__init__(a=5)` on two optional parameters. */
  lemma OneOfTwoBuilds(cls: CommandClass, params: Kwargs)
    requires cls == ExampleClass([OptA, OptB], [], ReqKind) && params == [("a", Some(IntV(5)))]
    ensures Construct(cls, false, params) == Ok(Command(cls, false, [Bound(OptA, Some(IntV(5))), Bound(OptB, None)]))
  {
    var s := [OptA, OptB];
    assert params[..0] == [];
    assert Lookup(params, "a") == Some(Some(IntV(5))) && Lookup(params, "b") == None;
    TwoOptionalNames();
    assert Declared(s, "a") by {
      assert s[0].name == "a";
    }
    assert !Unknown(s, params);
    assert GivenOptional(params, ["a", "b"]) == ["a"];
    assert !Missing(s, params);
    OneByte(5);
    assert s[1] == OptB && Lookup(params, s[1].name) == None;
    assert BindFrom(s, false, params, 2) == Ok([]);
    assert [Bound(OptB, None)] + [] == [Bound(OptB, None)];
    assert BindFrom(s, false, params, 1) == Ok([Bound(OptB, None)]);
    assert s[0] == OptA && BindParam(OptA, false, Lookup(params, s[0].name)) == Ok(Some(IntV(5)));
    assert [Bound(OptA, Some(IntV(5)))] + [Bound(OptB, None)] == [Bound(OptA, Some(IntV(5))), Bound(OptB, None)];
    assert BindFrom(s, false, params, 0) == Ok([Bound(OptA, Some(IntV(5))), Bound(OptB, None)]);
    assert !SkipsOptional(s, params);
    assert ClassSchema(cls) == s;
  }

  lemma TwoOptionalNames()
    ensures OptionalNames([OptA, OptB]) == ["a", "b"]
    ensures OptionalNames([OptRest]) == ["a"]
  {
    assert [OptA][..0] == [] && [OptRest][..0] == [];
    assert OptionalNames([OptA]) == ["a"];
    assert [OptA, OptB][..1] == [OptA];
  }

  /** A u8 value serialises as its one byte and binds to a u8 parameter. */
  lemma OneByte(v: byte)
    ensures EncodeInt(UInt8, v) == Ok([v])
    ensures Serialize(IntT(UInt8), IntV(v)) == Ok([v])
  {
    var b := EncodeInt(UInt8, v).value;
    assert b == [b[0]] && b[1..] == [];
  }

  /** An omitted greedy optional parameter is read back from the empty
      rest as an empty value. */
  lemma OmittedGreedyReadsEmpty()
    ensures var cls := ExampleClass([OptRest], [], ReqKind);
      var c := Command(cls, false, [Bound(OptRest, None)]);
      && Construct(cls, false, []) == Ok(c)
      && FrameOf(c).Ok?
      && Parse(cls, FrameOf(c).value) == Ok(Command(cls, false, [Bound(OptRest, Some(BytesV([])))]))
  {
    var cls := ExampleClass([OptRest], [], ReqKind);
    var c := Command(cls, false, [Bound(OptRest, None)]);
    GreedyUnsetBuilds(cls);
    GreedyUnsetFrame(c);
    NothingReadsEmpty(cls);
  }

  /** `__init__()` with the greedy optional parameter left out. */
  lemma GreedyUnsetBuilds(cls: CommandClass)
    requires cls == ExampleClass([OptRest], [], ReqKind)
    ensures Construct(cls, false, []) == Ok(Command(cls, false, [Bound(OptRest, None)]))
  {
    var s := [OptRest];
    TwoOptionalNames();
    assert !SkipsOptional(s, []);
    assert !Missing(s, []);
    assert s[0] == OptRest;
    assert BindFrom(s, false, [], 1) == Ok([]);
    assert [Bound(OptRest, None)] + [] == [Bound(OptRest, None)];
    assert BindFrom(s, false, [], 0) == Ok([Bound(OptRest, None)]);
    assert ClassSchema(cls) == s;
  }

  /** Its frame has an empty payload. */
  lemma GreedyUnsetFrame(c: Command)
    requires c.bound == [Bound(OptRest, None)] && !c.partial
    ensures FrameOf(c).Ok? && FrameOf(c).value.hl == Some(HLPacket(Some(ClassHeader(c.cls)), []))
  {
    var none: Bytes := [];
    assert EncodeFrom(c.bound, 1) == Ok(none);
    assert none + none == none;
    assert EncodeFrom(c.bound, 0) == Ok(none);
    var p := HLPacket(Some(ClassHeader(c.cls)), none);
    assert |HLBody(p)| <= 4;
    assert HLLength(p).Ok?;
  }

  /** from_frame on the empty payload sets the greedy parameter to the
      empty byte string. */
  lemma NothingReadsEmpty(cls: CommandClass)
    requires cls == ExampleClass([OptRest], [], ReqKind)
    ensures forall f: Frame :: f.hl == Some(HLPacket(Some(ClassHeader(cls)), [])) ==>
      Parse(cls, f) == Ok(Command(cls, false, [Bound(OptRest, Some(BytesV([])))]))
  {
    var s := [OptRest];
    var none: Bytes := [];
    var params: Kwargs := [("a", Some(BytesV(none)))];
    assert DecodeBytes(none) == (none, none);
    assert Deserialize(BytesT, none) == Ok((BytesV(none), none));
    assert ParseFrom(s, 0, none, false, []) == Done(params, none);
    EmptyRestBuilds(cls, params);
  }

  /** `__init__(a=b"")`. */
  lemma EmptyRestBuilds(cls: CommandClass, params: Kwargs)
    requires cls == ExampleClass([OptRest], [], ReqKind) && params == [("a", Some(BytesV([])))]
    ensures Construct(cls, false, params) == Ok(Command(cls, false, [Bound(OptRest, Some(BytesV([])))]))
  {
    var s := [OptRest];
    assert params[..0] == [];
    assert Lookup(params, "a") == Some(Some(BytesV([])));
    TwoOptionalNames();
    assert Declared(s, "a") by {
      assert s[0].name == "a";
    }
    assert !Unknown(s, params);
    assert GivenOptional(params, ["a"]) == ["a"];
    assert !SkipsOptional(s, params);
    assert !Missing(s, params);
    assert s[0] == OptRest && BindParam(OptRest, false, Lookup(params, s[0].name)) == Ok(Some(BytesV([])));
    assert BindFrom(s, false, params, 1) == Ok([]);
    assert [Bound(OptRest, Some(BytesV([])))] + [] == [Bound(OptRest, Some(BytesV([])))];
    assert BindFrom(s, false, params, 0) == Ok([Bound(OptRest, Some(BytesV([])))]);
    assert ClassSchema(cls) == s;
  }

  /** A response with a non-zero status and an omitted optional parameter
      is read back as a partial response. */
  lemma FailedStatusReadsPartial()
    ensures var cls := ExampleClass([], [Status, OptA], RspKind);
      var c := Command(cls, false, [Bound(Status, Some(IntV(1))), Bound(OptA, None)]);
      && Construct(cls, false, [("StatusCode", Some(IntV(1)))]) == Ok(c)
      && FrameOf(c).Ok?
      && Parse(cls, FrameOf(c).value) == Ok(Command(cls, true, c.bound))
  {
    var cls := ExampleClass([], [Status, OptA], RspKind);
    var c := Command(cls, false, [Bound(Status, Some(IntV(1))), Bound(OptA, None)]);
    StatusOnlyBuilds(cls, false);
    StatusOnlyFrame(c);
    StatusStops(cls);
  }

  lemma StatusOptionalNames()
    ensures OptionalNames([Status, OptA]) == ["a"]
  {
    assert [Status][..0] == [];
    assert OptionalNames([Status]) == [];
    assert [Status, OptA][..1] == [Status];
  }

  /** `__init__(StatusCode=1)`, complete or partial. */
  lemma StatusOnlyBuilds(cls: CommandClass, partial: bool)
    requires cls == ExampleClass([], [Status, OptA], RspKind)
    ensures var kw: Kwargs := [("StatusCode", Some(IntV(1)))];
      Construct(cls, partial, kw) == Ok(Command(cls, partial, [Bound(Status, Some(IntV(1))), Bound(OptA, None)]))
  {
    var s := [Status, OptA];
    var kw: Kwargs := [("StatusCode", Some(IntV(1)))];
    assert kw[..0] == [];
    assert Lookup(kw, "StatusCode") == Some(Some(IntV(1))) && Lookup(kw, "a") == None;
    StatusOptionalNames();
    assert Declared(s, "StatusCode") by {
      assert s[0].name == "StatusCode";
    }
    assert !Unknown(s, kw);
    assert GivenOptional(kw, ["a"]) == [];
    assert !SkipsOptional(s, kw);
    assert !Missing(s, kw) by {
      assert s[1].name in OptionalNames(s);
    }
    OneByte(1);
    assert s[1] == OptA && Lookup(kw, s[1].name) == None;
    assert BindFrom(s, partial, kw, 2) == Ok([]);
    assert [Bound(OptA, None)] + [] == [Bound(OptA, None)];
    assert BindFrom(s, partial, kw, 1) == Ok([Bound(OptA, None)]);
    assert s[0] == Status && BindParam(Status, partial, Lookup(kw, s[0].name)) == Ok(Some(IntV(1)));
    assert [Bound(Status, Some(IntV(1)))] + [Bound(OptA, None)] == [Bound(Status, Some(IntV(1))), Bound(OptA, None)];
    assert BindFrom(s, partial, kw, 0) == Ok([Bound(Status, Some(IntV(1))), Bound(OptA, None)]);
    assert ClassSchema(cls) == s;
  }

  /** Its frame carries the status byte. */
  lemma StatusOnlyFrame(c: Command)
    requires c.bound == [Bound(Status, Some(IntV(1))), Bound(OptA, None)] && !c.partial
    ensures FrameOf(c).Ok? && FrameOf(c).value.hl == Some(HLPacket(Some(ClassHeader(c.cls)), [1]))
  {
    OneByte(1);
    var none: Bytes := [];
    assert EncodeFrom(c.bound, 2) == Ok(none);
    assert EncodeFrom(c.bound, 1) == Ok(none + none);
    assert EncodeFrom(c.bound, 0) == Ok([1] + (none + none));
    assert [1] + (none + none) == [1];
    var p := HLPacket(Some(ClassHeader(c.cls)), [1]);
    assert |HLBody(p)| <= 5;
    assert HLLength(p).Ok?;
  }

  /** from_frame on the payload `[1]` reads the status, finds no data for
      the optional parameter, and returns a partial response. */
  lemma StatusStops(cls: CommandClass)
    requires cls == ExampleClass([], [Status, OptA], RspKind)
    ensures forall f: Frame :: f.hl == Some(HLPacket(Some(ClassHeader(cls)), [1])) ==>
      Parse(cls, f) == Ok(Command(cls, true, [Bound(Status, Some(IntV(1))), Bound(OptA, None)]))
  {
    var s := [Status, OptA];
    var params: Kwargs := [("StatusCode", Some(IntV(1)))];
    assert ControlTypeOf(ClassHeader(cls)) == Rsp;
    IntRoundTrip(UInt8, 1, []);
    OneByte(1);
    EmptyData(IntT(UInt8));
    assert params[..0] == [];
    assert Lookup(params, "StatusCode") == Some(Some(IntV(1)));
    assert ParseFrom(s, 1, [], true, params) == Stopped(params);
    assert ParseFrom(s, 0, [1], true, []) == Stopped(params);
    StatusOnlyBuilds(cls, true);
  }

  // ------------------------------------------- trailing data after the last parameter

  /** The frame `f` with `extra` appended to its packet data. */
  function WithTrailing(f: Frame, extra: Bytes): (r: Frame)
    requires f.hl.Some?
    ensures r.ll == f.ll && r.hl.Some? && r.hl.value.header == f.hl.value.header
    ensures r.hl.value.data == f.hl.value.data + extra
  {
    Frame(f.ll, Some(HLPacket(f.hl.value.header, f.hl.value.data + extra)))
  }

  lemma TrailingNothing(f: Frame)
    requires f.hl.Some?
    ensures WithTrailing(f, []) == f
  {
    assert f.hl.value.data + [] == f.hl.value.data;
  }

  /** As written, from_frame ignores any data left after the last parameter:
      a frame of a complete command with bytes appended still parses as that
      command. */
  lemma TrailingBytesAccepted(c: Command, extra: Bytes)
    requires WellFormedSchema(ClassSchema(c.cls)) && Shaped(c) && PresentPrefix(c.bound, |c.bound|)
    requires forall j :: 0 <= j < |c.bound| ==> !Greedy(c.bound[j].param.ty)
    requires FrameOf(c).Ok?
    ensures Parse(c.cls, WithTrailing(FrameOf(c).value, extra)) == Ok(c)
  {
    var isRsp := ControlTypeOf(ClassHeader(c.cls)) == Rsp;
    ParseEncoded(ClassSchema(c.cls), c.bound, |c.bound|, 0, extra, isRsp);
    ConstructParsed(c, |c.bound|);
  }

  /** from_frame rejecting unparsed data with ValueError, as the command
      deserialisation test expects. */
  function ParseStrict(cls: CommandClass, f: Frame): (r: Result<Command>)
    ensures f.hl.None? ==> r == Err(AttributeError)
    ensures f.hl.Some? && f.hl.value.header != Some(ClassHeader(cls)) ==> r == Err(ValueError)
    ensures r.Ok? ==> r.value.cls == cls
  {
    if f.hl.None? then Err(AttributeError)
    else if f.hl.value.header != Some(ClassHeader(cls)) then Err(ValueError)
    else
      var isRsp := ControlTypeOf(ClassHeader(cls)) == Rsp;
      match ParseFrom(ClassSchema(cls), 0, f.hl.value.data, isRsp, [])
      case Done(params, rest) => if rest != [] then Err(ValueError) else Construct(cls, false, params)
      case Stopped(params) => Construct(cls, true, params)
      case Failed(e) => Err(e)
  }

  /** The strict parser still inverts to_frame. */
  lemma StrictRoundTrip(c: Command, m: nat)
    requires WellFormedSchema(ClassSchema(c.cls)) && Shaped(c) && PresentPrefix(c.bound, m)
    requires m < |c.bound| ==> NeedsData(c.bound[m].param.ty)
    requires m < |c.bound| && ControlTypeOf(ClassHeader(c.cls)) == Rsp ==> StatusZero(c.bound, m)
    requires FrameOf(c).Ok?
    ensures ParseStrict(c.cls, FrameOf(c).value) == Ok(c)
  {
    var isRsp := ControlTypeOf(ClassHeader(c.cls)) == Rsp;
    ParseEncoded(ClassSchema(c.cls), c.bound, m, 0, [], isRsp);
    assert EncodeFrom(c.bound, 0).value + [] == EncodeFrom(c.bound, 0).value;
    ConstructParsed(c, m);
  }

  /** ... and rejects the frame with bytes appended. */
  lemma StrictRejectsTrailing(c: Command, extra: Bytes)
    requires WellFormedSchema(ClassSchema(c.cls)) && Shaped(c) && PresentPrefix(c.bound, |c.bound|)
    requires forall j :: 0 <= j < |c.bound| ==> !Greedy(c.bound[j].param.ty)
    requires FrameOf(c).Ok? && extra != []
    ensures ParseStrict(c.cls, WithTrailing(FrameOf(c).value, extra)) == Err(ValueError)
  {
    var isRsp := ControlTypeOf(ClassHeader(c.cls)) == Rsp;
    ParseEncoded(ClassSchema(c.cls), c.bound, |c.bound|, 0, extra, isRsp);
  }
}
