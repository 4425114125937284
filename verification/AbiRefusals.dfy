/** The error each refusal of the ABI codec reports (src/abi/codec.rs, src/abi/model.rs). */
module AbiRefusals {
  import opened AbiCodec
  import opened AbiEncodable
  import opened AbiModel
  import opened AbiStack
  import opened AbiWires
  import opened Addresses
  import opened Bits
  import opened Cells
  import opened PayloadSizes
  import opened Snake
  import opened Wires
  import opened Wrappers

  /** A value of the shape its type asks for, whatever is inside. */
  predicate SameShape(ty: AbiType, value: AbiValue) {
    match ty
    case TInt(_) => value.VInt?
    case TUint(_) => value.VUint?
    case TBool => value.VBool?
    case TBytes => value.VBytes?
    case TString => value.VString?
    case TAddress => value.VAddress?
    case TCell => value.VCell?
    case TSlice => value.VSlice?
    case TTuple(_) => value.VTuple?
    case TArray(_) => value.VArray?
    case TMap(_, _, _) => value.VMap?
    case TOptional(_) => value.VOptional?
    case TUnknown(_) => false
  }

  predicate IntegerOutside(ty: AbiType, value: AbiValue) {
    match (ty, value)
    case (TInt(bits), VInt(v)) => 1 <= bits <= 257 && !IsInt(v, bits)
    case (TUint(bits), VUint(v)) => 1 <= bits <= 257 && !IsUint(v, bits)
    case _ => false
  }

  predicate BadWidth(ty: AbiType) {
    (ty.TInt? && !(1 <= ty.bits <= 257)) || (ty.TUint? && !(1 <= ty.bits <= 257))
  }

  /** Storing in a body: arrays and unknown types never, then the shape, then widths, ranges and arities. */
  lemma StoreRefusals(st: Chunk, ty: AbiType, value: AbiValue)
    ensures ty.TArray? || ty.TUnknown? ==> StoreBody(st, ty, value) == Err(UnsupportedType)
    ensures !ty.TArray? && !ty.TUnknown? && !SameShape(ty, value) ==> StoreBody(st, ty, value) == Err(TypeMismatch)
  {
    hide Pow2, Put, StoreFields, EncodeMap, SnakeCell, StdLayout, ToBits, SignedBits, ValidateWidth, EnsureSignedRange,
      EnsureUnsignedRange;
  }

  lemma StoreArityRefusal(st: Chunk, fields: seq<AbiParameter>, values: seq<AbiValue>)
    requires |fields| != |values|
    ensures StoreBody(st, TTuple(fields), VTuple(values)) == Err(ArityMismatch(|fields|, |values|))
  {
  }

  lemma StoreNumberRefusals(st: Chunk, ty: AbiType, value: AbiValue)
    ensures BadWidth(ty) && SameShape(ty, value) ==> StoreBody(st, ty, value) == Err(InvalidIntegerWidth(ty.bits))
    ensures IntegerOutside(ty, value) ==> StoreBody(st, ty, value) == Err(IntegerOutOfRange)
  {
    hide Pow2, Put, StoreFields, EncodeMap, SnakeCell, StdLayout, ToBits, SignedBits;
  }

  /** Making a stack entry: the same, except that arrays have one. */
  lemma StackStoreRefusals(ty: AbiType, value: AbiValue)
    ensures ty.TUnknown? ==> StackEncode(value, ty) == Err(UnsupportedType)
    ensures !ty.TUnknown? && !SameShape(ty, value) ==> StackEncode(value, ty) == Err(TypeMismatch)
  {
    hide Pow2, EncodeEach, EncodeAll, EncodeMap, SnakeCell, AddressCell, ValidateWidth, EnsureSignedRange,
      EnsureUnsignedRange;
  }

  lemma StackIntRefusals(bits: u16, v: int)
    ensures BadWidth(TInt(bits)) ==> StackEncode(VInt(v), TInt(bits)) == Err(InvalidIntegerWidth(bits))
    ensures IntegerOutside(TInt(bits), VInt(v)) ==> StackEncode(VInt(v), TInt(bits)) == Err(IntegerOutOfRange)
  {
    hide Pow2;
  }

  lemma StackUintRefusals(bits: u16, v: nat)
    ensures BadWidth(TUint(bits)) ==> StackEncode(VUint(v), TUint(bits)) == Err(InvalidIntegerWidth(bits))
    ensures IntegerOutside(TUint(bits), VUint(v)) ==> StackEncode(VUint(v), TUint(bits)) == Err(IntegerOutOfRange)
  {
    hide Pow2;
  }

  lemma StackArityRefusal(fields: seq<AbiParameter>, values: seq<AbiValue>)
    requires |fields| != |values|
    ensures StackEncode(VTuple(values), TTuple(fields)) == Err(ArityMismatch(|fields|, |values|))
  {
  }

  /** An entry of the kind its type asks for. */
  predicate SameEntry(ty: AbiType, entry: StackEntry) {
    match ty
    case TInt(_) => entry.EInt?
    case TUint(_) => entry.EInt?
    case TBool => entry.EInt?
    case TBytes => entry.ECell?
    case TString => entry.ECell?
    case TCell => entry.ECell?
    case TMap(_, _, _) => entry.ECell?
    case TAddress => entry.ESlice?
    case TSlice => entry.ESlice?
    case TTuple(_) => entry.ETuple?
    case TArray(_) => entry.EList?
    case _ => true
  }

  /** Reading a stack entry. */
  lemma StackLoadRefusals(ty: AbiType, entry: StackEntry)
    ensures ty.TUnknown? ==> StackDecode(ty, entry) == Err(UnsupportedType)
    ensures BadWidth(ty) ==> StackDecode(ty, entry) == Err(InvalidIntegerWidth(ty.bits))
    ensures !BadWidth(ty) && !SameEntry(ty, entry) ==> StackDecode(ty, entry) == Err(TypeMismatch)
    ensures ty.TBool? && entry.EInt? && entry.int_ != 0 && entry.int_ != -1 ==>
      StackDecode(ty, entry) == Err(InvalidBool)
    ensures ty.TInt? && !BadWidth(ty) && entry.EInt? && !IsInt(entry.int_, ty.bits) ==>
      StackDecode(ty, entry) == Err(IntegerOutOfRange)
    ensures ty.TUint? && !BadWidth(ty) && entry.EInt? && (entry.int_ < 0 || !IsUint(entry.int_, ty.bits)) ==>
      StackDecode(ty, entry) == Err(IntegerOutOfRange)
    ensures ty.TTuple? && entry.ETuple? && |ty.fields| != |entry.entries| ==>
      StackDecode(ty, entry) == Err(ArityMismatch(|ty.fields|, |entry.entries|))
  {
    hide Pow2, DecodeEach, DecodeAll, DecodeMap, ReadBytes, ReadUtf8, DecodeAddressSlice;
  }

  /** The bits and references that must at least be there. */
  predicate Short(ty: AbiType, c: Chunk) {
    match ty
    case TInt(bits) => 1 <= bits <= 257 && |c.bits| < bits
    case TUint(bits) => 1 <= bits <= 257 && |c.bits| < bits
    case TBool => c.bits == []
    case TOptional(_) => c.bits == []
    case TAddress => |c.bits| < 2
    case TBytes => c.refs == []
    case TString => c.refs == []
    case TCell => c.refs == []
    case TSlice => c.refs == []
    case TMap(_, _, _) => c.refs == []
    case _ => false
  }

  ghost predicate NoBytes(cell: Cell) {
    forall bytes :: !HoldsBytes(cell, bytes)
  }

  /** Loading from a body. */
  lemma LoadRefusals(c: Chunk, ty: AbiType)
    ensures ty.TArray? || ty.TUnknown? ==> LoadBody(c, ty) == Err(UnsupportedType)
    ensures BadWidth(ty) ==> LoadBody(c, ty) == Err(InvalidIntegerWidth(ty.bits))
    ensures Short(ty, c) ==> LoadBody(c, ty) == Err(MalformedBody)
    ensures (ty.TBytes? || ty.TString?) && c.refs != [] && NoBytes(c.refs[0]) ==>
      LoadBody(c, ty) == Err(MalformedSnake)
    ensures forall bytes :: ty.TString? && c.refs != [] && HoldsBytes(c.refs[0], bytes) && !ValidUtf8(bytes) ==>
      LoadBody(c, ty) == Err(InvalidUtf8)
  {
    hide HoldsBytes, ValidUtf8, ReadSnake, Pow2, FromBits;
    if (ty.TBytes? || ty.TString?) && c.refs != [] {
      var cell: Cell := c.refs[0];
      forall bytes ensures ReadSnake(cell.bits, cell.refs) == Ok(bytes) <==> HoldsBytes(cell, bytes) {
        HoldsIff(cell, bytes);
      }
    }
  }

  /** An address that is readable but not a plain standard one is refused as an address, anything else as a body. */
  lemma AddressRefusals(c: Chunk, a: MsgAddressInt, rest: Chunk)
    requires AddressOk(Internal(a)) && NormalInt(a) == a
    requires c.bits == AddressWire(Internal(a)) + rest.bits && c.refs == rest.refs
    ensures a.Var? || a.anycast.Some? ==> LoadBody(c, TAddress) == Err(MalformedAddress)
  {
    hide AddressWire, IntLoad, IntLayout, PayloadSizes.AddressOk;
    AddressIsWritten(Internal(a));
    IntReads(a, rest);
    assert c == OfBits(AddressWire(Internal(a))).Then(rest);
  }
}
