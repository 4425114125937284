/** ABI types, values and errors (src/abi/model.rs). */
module AbiModel {
  import opened Addresses
  import opened Bits
  import opened Cells
  import opened Wrappers

  const ABI_INTEGER_MAX_BITS := 257

  type u16 = x: int | 0 <= x < 0x1_0000
  type u32 = x: int | 0 <= x < 0x1_0000_0000
  type u64 = x: int | 0 <= x < 0x1_0000_0000_0000_0000

  /** A named parameter; the codecs look at its type only. */
  datatype AbiParameter = AbiParameter(name: string, ty: AbiType, optional: bool)

  datatype AbiType =
    | TInt(bits: u16)
    | TUint(bits: u16)
    | TBool
    | TBytes
    | TString
    | TAddress
    | TCell
    | TSlice
    | TTuple(fields: seq<AbiParameter>)
    | TArray(item: AbiType)
    | TMap(key: AbiType, value: AbiType, keyBits: Option<u16>)
    | TOptional(item: AbiType)
    | TUnknown(name: string)

  datatype AbiValue =
    | VInt(int_: int)
    | VUint(uint: nat)
    | VBool(bool_: bool)
    | VBytes(bytes: seq<byte>)
    | VString(utf8: Utf8)
    | VAddress(address: Address)
    | VCell(cell: Cell)
    | VSlice(cell: Cell)
    | VTuple(values: seq<AbiValue>)
    | VArray(values: seq<AbiValue>)
    | VMap(entries: seq<MapEntry>)
    | VOptional(value: Option<AbiValue>)

  datatype MapEntry = MapEntry(key: AbiValue, value: AbiValue)

  datatype AbiCodecError =
    | TypeMismatch
    | ArityMismatch(declared: nat, given: nat)
    | InvalidIntegerWidth(width: u16)
    | IntegerOutOfRange
    | InvalidBool
    | InvalidUtf8
    | MalformedSnake
    | MalformedAddress
    | UnsupportedType
    | UnsupportedMapKey
    | InvalidMapKeyBits(keyWidth: u16, explicitWidth: u16)
    | DuplicateMapKey(key: seq<bool>)
    | InvalidMessageSelector
    | InvalidGetMethodSelector
    | InvalidEventSelector
    | OpcodeMismatch(expected: u32, actual: u32)
    | MalformedBody
    | TrailingBodyData(bits: nat, refs: nat)

  type Outcome<T> = Result<T, AbiCodecError>

  // ----- UTF-8 (RFC 3629, section 4): what a Rust string may hold -----

  predicate Continuation(b: byte) {
    0x80 <= b <= 0xBF
  }

  predicate ValidUtf8(b: seq<byte>)
    decreases |b|
  {
    if b == [] then true
    else if b[0] <= 0x7F then ValidUtf8(b[1..])
    else if 0xC2 <= b[0] <= 0xDF then
      |b| >= 2 && Continuation(b[1]) && ValidUtf8(b[2..])
    else if 0xE0 <= b[0] <= 0xEF then
      && |b| >= 3 && Continuation(b[1]) && Continuation(b[2])
      && (b[0] == 0xE0 ==> 0xA0 <= b[1]) && (b[0] == 0xED ==> b[1] <= 0x9F)
      && ValidUtf8(b[3..])
    else
      && 0xF0 <= b[0] <= 0xF4
      && |b| >= 4 && Continuation(b[1]) && Continuation(b[2]) && Continuation(b[3])
      && (b[0] == 0xF0 ==> 0x90 <= b[1]) && (b[0] == 0xF4 ==> b[1] <= 0x8F)
      && ValidUtf8(b[4..])
  }

  type Utf8 = b: seq<byte> | ValidUtf8(b) witness []

  // ----- Range checks -----

  predicate WidthOk(bits: u16) {
    1 <= bits <= ABI_INTEGER_MAX_BITS
  }

  function ValidateWidth(bits: u16): Outcome<()> {
    if WidthOk(bits) then Ok(()) else Err(InvalidIntegerWidth(bits))
  }

  /** The check of the source; `bits - 1` does not underflow because the width was validated before. */
  function EnsureSignedRange(value: int, bits: u16): Outcome<()>
    requires WidthOk(bits)
  {
    if SignedFits(value, bits) then Ok(()) else Err(IntegerOutOfRange)
  }

  function EnsureUnsignedRange(value: nat, bits: u16): Outcome<()> {
    if UnsignedFits(value, bits) then Ok(()) else Err(IntegerOutOfRange)
  }
}
