/**
 * Encoding and decoding of ABI values in message bodies (src/abi/codec.rs, src/abi/map.rs).
 *
 * The functions say what each operation does to the contents of its builder or slice, in the order of the source and
 * with its errors; the methods of module `AbiMethods` are proved against them.
 */
module AbiCodec {
  import opened AbiModel
  import opened Addresses
  import opened Bits
  import opened Cells
  import opened Dictionary
  import opened Snake
  import opened SortedMap
  import opened Wrappers

  // ----- Storing -----

  /** Appends to a builder's contents, unless the cell would overflow. */
  function Put(st: Chunk, part: Chunk): Outcome<Chunk> {
    if st.Then(part).Fits() then Ok(st.Then(part)) else Err(MalformedBody)
  }

  function StoreBody(st: Chunk, ty: AbiType, value: AbiValue): Outcome<Chunk>
    decreases ty, 0
  {
    match (ty, value)
    case (TInt(bits), VInt(v)) =>
      var _ :- ValidateWidth(bits);
      var _ :- EnsureSignedRange(v, bits);
      Put(st, OfBits(SignedBits(v, bits)))
    case (TUint(bits), VUint(v)) =>
      var _ :- ValidateWidth(bits);
      var _ :- EnsureUnsignedRange(v, bits);
      Put(st, OfBits(ToBits(v, bits)))
    case (TBool, VBool(v)) => Put(st, OfBits([v]))
    case (TBytes, VBytes(bytes)) => Put(st, OfRef(SnakeCell(bytes)))
    case (TString, VString(utf8)) => Put(st, OfRef(SnakeCell(utf8)))
    case (TAddress, VAddress(address)) => Put(st, StdLayout(address))
    case (TCell, VCell(cell)) => Put(st, OfRef(cell))
    case (TSlice, VSlice(cell)) => Put(st, OfRef(cell))
    case (TTuple(fields), VTuple(values)) =>
      if |fields| != |values| then Err(ArityMismatch(|fields|, |values|))
      else StoreFields(st, fields, values)
    case (TOptional(_), VOptional(None)) => Put(st, OfBits([false]))
    case (TOptional(item), VOptional(Some(v))) =>
      var st' :- Put(st, OfBits([true]));
      StoreBody(st', item, v)
    case (TArray(_), _) => Err(UnsupportedType)
    case (TMap(key, valueTy, keyBits), VMap(entries)) =>
      var cell :- EncodeMap(key, valueTy, keyBits, entries);
      Put(st, OfRef(cell))
    case (TUnknown(_), _) => Err(UnsupportedType)
    case _ => Err(TypeMismatch)
  }

  function StoreFields(st: Chunk, fields: seq<AbiParameter>, values: seq<AbiValue>): Outcome<Chunk>
    requires |fields| == |values|
    decreases fields, 0
  {
    if fields == [] then Ok(st)
    else
      var st' :- StoreBody(st, fields[0].ty, values[0]);
      StoreFields(st', fields[1..], values[1..])
  }

  /** A standard address without anycast, as `MsgAddressInt::std` stores it. */
  function StdLayout(address: Address): (c: Chunk)
    ensures IntLayout(Std(None, address)) == Some(c)
    ensures |c.bits| == 267 && c.refs == []
  {
    IntLayout(Std(None, address)).value
  }

  function MapKeyBits(keyTy: AbiType, explicitBits: Option<u16>): (r: Outcome<u16>)
    ensures r.Ok? ==> WidthOk(r.value)
  {
    if !keyTy.TInt? && !keyTy.TUint? then Err(UnsupportedMapKey)
    else
      var _ :- ValidateWidth(keyTy.bits);
      match explicitBits
      case None => Ok(keyTy.bits)
      case Some(actual) =>
        var _ :- ValidateWidth(actual);
        if actual != keyTy.bits then Err(InvalidMapKeyBits(keyTy.bits, actual)) else Ok(keyTy.bits)
  }

  function KeyToBits(keyTy: AbiType, key: AbiValue, keyBits: u16): (r: Outcome<seq<bool>>)
    ensures r.Ok? ==> |r.value| == keyBits
  {
    match (keyTy, key)
    case (TInt(bits), VInt(v)) =>
      var _ :- ValidateWidth(bits);
      var _ :- EnsureSignedRange(v, bits);
      if SignedFits(v, keyBits) then Ok(SignedBits(v, keyBits)) else Err(MalformedBody)
    case (TUint(bits), VUint(v)) =>
      var _ :- ValidateWidth(bits);
      var _ :- EnsureUnsignedRange(v, bits);
      if UnsignedFits(v, keyBits) then Ok(ToBits(v, keyBits)) else Err(MalformedBody)
    case _ => if keyTy.TInt? || keyTy.TUint? then Err(TypeMismatch) else Err(UnsupportedMapKey)
  }

  /** A map value sits alone in a fresh cell. */
  function EncodeValueCell(valueTy: AbiType, value: AbiValue): Outcome<Cell>
    decreases valueTy, 1
  {
    var chunk :- StoreBody(EMPTY, valueTy, value);
    if chunk.Fits() then Ok(chunk.ToCell()) else Err(MalformedBody)
  }

  /** Inserts the entries in the order given; the first key met twice is an error. */
  function EncodeEntries(keyTy: AbiType, valueTy: AbiType, keyBits: u16, entries: seq<MapEntry>, d: Dict): Outcome<Dict>
    decreases valueTy, 2, |entries|
  {
    if entries == [] then Ok(d)
    else
      var key :- KeyToBits(keyTy, entries[0].key, keyBits);
      var cell :- EncodeValueCell(valueTy, entries[0].value);
      if Contains(d, key) then Err(DuplicateMapKey(key))
      else EncodeEntries(keyTy, valueTy, keyBits, entries[1..], Insert(d, key, cell))
  }

  function DictCell(d: Dict, keyBits: nat): Outcome<Cell> {
    if !KeysOfLength(d, keyBits) then Err(MalformedBody)
    else match StoreDict(d, keyBits)
      case Some(chunk) => if chunk.Fits() then Ok(chunk.ToCell()) else Err(MalformedBody)
      case None => Err(MalformedBody)
  }

  function EncodeMap(keyTy: AbiType, valueTy: AbiType, explicitBits: Option<u16>, entries: seq<MapEntry>): Outcome<Cell>
    decreases valueTy, 3
  {
    var keyBits :- MapKeyBits(keyTy, explicitBits);
    var d :- EncodeEntries(keyTy, valueTy, keyBits, entries, []);
    DictCell(d, keyBits)
  }

  // ----- Loading -----

  type Loaded<T> = Outcome<(T, Chunk)>

  function OrMalformed<T>(r: Option<(T, Chunk)>): Loaded<T> {
    match r
    case Some(p) => Ok(p)
    case None => Err(MalformedBody)
  }

  function ReadBytes(cell: Cell): Outcome<seq<byte>> {
    match ReadSnake(cell.bits, cell.refs)
    case Ok(bytes) => Ok(bytes)
    case Err(_) => Err(MalformedSnake)
  }

  function ReadUtf8(cell: Cell): Outcome<Utf8> {
    var bytes :- ReadBytes(cell);
    if ValidUtf8(bytes) then Ok(bytes) else Err(InvalidUtf8)
  }

  /** Only a standard address without anycast is an ABI address. */
  function PlainAddress(a: MsgAddressInt): Outcome<Address> {
    match a
    case Std(None, address) => Ok(address)
    case Std(Some(_), _) => Err(MalformedAddress)
    case Var(_, _, _, _) => Err(MalformedAddress)
  }

  function LoadBody(c: Chunk, ty: AbiType): Loaded<AbiValue>
    decreases ty, 0
  {
    match ty
    case TInt(bits) =>
      var _ :- ValidateWidth(bits);
      var (v, rest) :- OrMalformed(TakeInt(c, bits));
      var _ :- EnsureSignedRange(v, bits);
      Ok((VInt(v), rest))
    case TUint(bits) =>
      var _ :- ValidateWidth(bits);
      var (v, rest) :- OrMalformed(TakeUint(c, bits));
      var _ :- EnsureUnsignedRange(v, bits);
      Ok((VUint(v), rest))
    case TBool =>
      var (v, rest) :- OrMalformed(TakeBit(c));
      Ok((VBool(v), rest))
    case TBytes =>
      var (cell, rest) :- OrMalformed(TakeRef(c));
      var bytes :- ReadBytes(cell);
      Ok((VBytes(bytes), rest))
    case TString =>
      var (cell, rest) :- OrMalformed(TakeRef(c));
      var utf8 :- ReadUtf8(cell);
      Ok((VString(utf8), rest))
    case TAddress =>
      var (a, rest) :- OrMalformed(IntLoad(c));
      var address :- PlainAddress(a);
      Ok((VAddress(address), rest))
    case TCell =>
      var (cell, rest) :- OrMalformed(TakeRef(c));
      Ok((VCell(cell), rest))
    case TSlice =>
      var (cell, rest) :- OrMalformed(TakeRef(c));
      Ok((VSlice(cell), rest))
    case TTuple(fields) =>
      var (values, rest) :- LoadFields(c, fields);
      Ok((VTuple(values), rest))
    case TOptional(item) =>
      var (present, afterBit) :- OrMalformed(TakeBit(c));
      if present then
        var (v, rest) :- LoadBody(afterBit, item);
        Ok((VOptional(Some(v)), rest))
      else Ok((VOptional(None), afterBit))
    case TArray(_) => Err(UnsupportedType)
    case TMap(key, value, keyBits) =>
      var (cell, rest) :- OrMalformed(TakeRef(c));
      var entries :- DecodeMap(key, value, keyBits, cell);
      Ok((VMap(entries), rest))
    case TUnknown(_) => Err(UnsupportedType)
  }

  function LoadFields(c: Chunk, fields: seq<AbiParameter>): (r: Loaded<seq<AbiValue>>)
    ensures r.Ok? ==> |r.value.0| == |fields|
    decreases fields, 0
  {
    if fields == [] then Ok(([], c))
    else
      var (v, c') :- LoadBody(c, fields[0].ty);
      var (vs, rest) :- LoadFields(c', fields[1..]);
      Ok(([v] + vs, rest))
  }

  function BitsToKey(keyTy: AbiType, key: seq<bool>): Outcome<AbiValue> {
    match keyTy
    case TInt(bits) =>
      var (v, _) :- OrMalformed(TakeInt(OfBits(key), bits));
      Ok(VInt(v))
    case TUint(bits) =>
      var (v, _) :- OrMalformed(TakeUint(OfBits(key), bits));
      Ok(VUint(v))
    case _ => Err(UnsupportedMapKey)
  }

  function DecodeValueCell(valueTy: AbiType, cell: Cell): Outcome<AbiValue>
    decreases valueTy, 1
  {
    var (v, rest) :- LoadBody(Contents(cell), valueTy);
    if rest == EMPTY then Ok(v) else Err(MalformedBody)
  }

  function DecodeEntries(keyTy: AbiType, valueTy: AbiType, d: Dict): Outcome<seq<MapEntry>>
    decreases valueTy, 2, |d|
  {
    if d == [] then Ok([])
    else
      var key :- BitsToKey(keyTy, d[0].key);
      var value :- DecodeValueCell(valueTy, d[0].value);
      var rest :- DecodeEntries(keyTy, valueTy, d[1..]);
      Ok([MapEntry(key, value)] + rest)
  }

  /** The dictionary of a map cell, which must hold nothing else. */
  function CellDict(cell: Cell, keyBits: nat): Outcome<Dict> {
    match LoadDict(Contents(cell), keyBits)
    case None => Err(MalformedBody)
    case Some((d, rest)) => if rest == EMPTY then Ok(d) else Err(MalformedBody)
  }

  function DecodeMap(keyTy: AbiType, valueTy: AbiType, explicitBits: Option<u16>, cell: Cell): Outcome<seq<MapEntry>>
    decreases valueTy, 3
  {
    var keyBits :- MapKeyBits(keyTy, explicitBits);
    var d :- CellDict(cell, keyBits);
    DecodeEntries(keyTy, valueTy, d)
  }
}
