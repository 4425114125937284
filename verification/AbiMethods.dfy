/**
 * The ABI codec as the source runs it: writes into a builder, reads from a slice, loops over fields and entries.
 * Each method is proved to do what its function in `AbiCodec` or `AbiMessages` says.
 */
module AbiMethods {
  import opened AbiCodec
  import opened AbiMessages
  import opened AbiModel
  import opened AddressMethods
  import opened Addresses
  import opened Bits
  import opened Cells
  import opened Dictionary
  import opened Snake
  import opened SortedMap
  import opened Wrappers

  /** What a store promises: on success the new contents, on failure the error. */
  ghost predicate Stores(expected: Outcome<Chunk>, r: Outcome<()>, after: Chunk) {
    match expected
    case Ok(st) => r == Ok(()) && after == st
    case Err(e) => r == Err(e)
  }

  /** What a load promises: on success the value and what is left, on failure the error. */
  ghost predicate Loads<T>(expected: Loaded<T>, r: Outcome<T>, after: Chunk) {
    match expected
    case Ok((v, rest)) => r == Ok(v) && after == rest
    case Err(e) => r == Err(e)
  }

  // ----- Storing -----

  method StoreBodyRef(b: Builder, cell: Cell) returns (r: Outcome<()>)
    requires b.Valid()
    modifies b
    ensures b.Valid() && Stores(Put(old(b.View()), OfRef(cell)), r, b.View())
  {
    var ok := b.StoreRef(cell);
    return if ok then Ok(()) else Err(MalformedBody);
  }

  method StoreBodyInt(b: Builder, bits: u16, v: int) returns (r: Outcome<()>)
    requires b.Valid()
    modifies b
    ensures b.Valid() && Stores(StoreBody(old(b.View()), TInt(bits), VInt(v)), r, b.View())
  {
    hide SignedBits, SignedFits;
    if !WidthOk(bits) {
      return Err(InvalidIntegerWidth(bits));
    }
    if !SignedFits(v, bits) {
      return Err(IntegerOutOfRange);
    }
    var ok := b.StoreInt(v, bits);
    return if ok then Ok(()) else Err(MalformedBody);
  }

  method StoreBodyUint(b: Builder, bits: u16, v: nat) returns (r: Outcome<()>)
    requires b.Valid()
    modifies b
    ensures b.Valid() && Stores(StoreBody(old(b.View()), TUint(bits), VUint(v)), r, b.View())
  {
    hide ToBits, UnsignedFits;
    if !WidthOk(bits) {
      return Err(InvalidIntegerWidth(bits));
    }
    if !UnsignedFits(v, bits) {
      return Err(IntegerOutOfRange);
    }
    var ok := b.StoreUint(v, bits);
    return if ok then Ok(()) else Err(MalformedBody);
  }

  /** The bit of a boolean, and the bit in front of an optional. */
  method StoreBodyBit(b: Builder, bit: bool) returns (r: Outcome<()>)
    requires b.Valid()
    modifies b
    ensures b.Valid() && Stores(Put(old(b.View()), OfBits([bit])), r, b.View())
  {
    var ok := b.StoreBit(bit);
    return if ok then Ok(()) else Err(MalformedBody);
  }

  method StoreBodyBytes(b: Builder, bytes: seq<byte>) returns (r: Outcome<()>)
    requires b.Valid()
    modifies b
    ensures b.Valid() && Stores(Put(old(b.View()), OfRef(SnakeCell(bytes))), r, b.View())
  {
    hide SnakeCell;
    var cell := NewSnakeCell(bytes);
    r := StoreBodyRef(b, cell);
  }

  method StoreBodyAddress(b: Builder, address: Address) returns (r: Outcome<()>)
    requires b.Valid()
    modifies b
    ensures b.Valid() && Stores(Put(old(b.View()), StdLayout(address)), r, b.View())
  {
    hide IntLayout, StdLayout;
    var ok := StoreMsgAddressInt(b, Std(None, address));
    return if ok then Ok(()) else Err(MalformedBody);
  }

  method StoreBodyOptional(b: Builder, item: AbiType, value: Option<AbiValue>) returns (r: Outcome<()>)
    requires b.Valid()
    modifies b
    ensures b.Valid() && Stores(StoreBody(old(b.View()), TOptional(item), VOptional(value)), r, b.View())
    decreases item, 1
  {
    hide Put;
    r := StoreBodyBit(b, value.Some?);
    if r.Ok? && value.Some? {
      r := StoreBodyValue(b, item, value.value);
    }
  }

  method StoreBodyMap(b: Builder, key: AbiType, valueTy: AbiType, keyBits: Option<u16>, entries: seq<MapEntry>)
    returns (r: Outcome<()>)
    requires b.Valid()
    modifies b
    ensures b.Valid() && Stores(StoreBody(old(b.View()), TMap(key, valueTy, keyBits), VMap(entries)), r, b.View())
    decreases valueTy, 4
  {
    hide Put, EncodeMap;
    var cell := EncodeMapCell(key, valueTy, keyBits, entries);
    if cell.Err? {
      return Err(cell.error);
    }
    r := StoreBodyRef(b, cell.value);
  }

  /** The pairs of a type and a value that the writer knows. */
  predicate SameKind(ty: AbiType, value: AbiValue) {
    match ty
    case TInt(_) => value.VInt?
    case TUint(_) => value.VUint?
    case TBool => value.VBool?
    case TBytes => value.VBytes?
    case TString => value.VString?
    case TAddress => value.VAddress?
    case TCell => value.VCell?
    case TSlice => value.VSlice?
    case TTuple(_) => value.VTuple?
    case TOptional(_) => value.VOptional?
    case TMap(_, _, _) => value.VMap?
    case TArray(_) => false
    case TUnknown(_) => false
  }

  lemma BoolPart(st: Chunk, v: bool)
    ensures StoreBody(st, TBool, VBool(v)) == Put(st, OfBits([v]))
  {
    hide Put, StoreFields;
  }

  lemma BytesPart(st: Chunk, bytes: seq<byte>)
    ensures StoreBody(st, TBytes, VBytes(bytes)) == Put(st, OfRef(SnakeCell(bytes)))
  {
    hide Put, SnakeCell, StoreFields;
  }

  lemma StringPart(st: Chunk, utf8: Utf8)
    ensures StoreBody(st, TString, VString(utf8)) == Put(st, OfRef(SnakeCell(utf8)))
  {
    hide Put, SnakeCell, StoreFields;
  }

  lemma AddressPart(st: Chunk, address: Address)
    ensures StoreBody(st, TAddress, VAddress(address)) == Put(st, StdLayout(address))
  {
    hide Put, StdLayout, StoreFields;
  }

  lemma CellPart(st: Chunk, cell: Cell)
    ensures StoreBody(st, TCell, VCell(cell)) == Put(st, OfRef(cell))
    ensures StoreBody(st, TSlice, VSlice(cell)) == Put(st, OfRef(cell))
  {
    hide Put, StoreFields;
  }

  /** All other pairs are refused. */
  lemma OtherKind(st: Chunk, ty: AbiType, value: AbiValue)
    requires !SameKind(ty, value)
    ensures StoreBody(st, ty, value) == Err(if ty.TArray? || ty.TUnknown? then UnsupportedType else TypeMismatch)
  {
    hide Put, SnakeCell, StdLayout, EncodeMap, StoreFields, ValidateWidth, EnsureSignedRange, EnsureUnsignedRange;
  }

  lemma TupleParts(st: Chunk, fields: seq<AbiParameter>, values: seq<AbiValue>)
    ensures StoreBody(st, TTuple(fields), VTuple(values)) ==
      if |fields| != |values| then Err(ArityMismatch(|fields|, |values|)) else StoreFields(st, fields, values)
  {
    hide StoreFields;
  }

  method StoreBodyValue(b: Builder, ty: AbiType, value: AbiValue) returns (r: Outcome<()>)
    requires b.Valid()
    modifies b
    ensures b.Valid() && Stores(StoreBody(old(b.View()), ty, value), r, b.View())
    decreases ty, 0
  {
    hide StoreBody, Put, SnakeCell, StdLayout, StoreFields;
    match (ty, value) {
      case (TInt(bits), VInt(v)) =>
        r := StoreBodyInt(b, bits, v);
      case (TUint(bits), VUint(v)) =>
        r := StoreBodyUint(b, bits, v);
      case (TBool, VBool(v)) =>
        BoolPart(b.View(), v);
        r := StoreBodyBit(b, v);
      case (TBytes, VBytes(bytes)) =>
        BytesPart(b.View(), bytes);
        r := StoreBodyBytes(b, bytes);
      case (TString, VString(utf8)) =>
        StringPart(b.View(), utf8);
        r := StoreBodyBytes(b, utf8);
      case (TAddress, VAddress(address)) =>
        AddressPart(b.View(), address);
        r := StoreBodyAddress(b, address);
      case (TCell, VCell(cell)) =>
        CellPart(b.View(), cell);
        r := StoreBodyRef(b, cell);
      case (TSlice, VSlice(cell)) =>
        CellPart(b.View(), cell);
        r := StoreBodyRef(b, cell);
      case (TTuple(fields), VTuple(values)) =>
        TupleParts(b.View(), fields, values);
        if |fields| != |values| {
          return Err(ArityMismatch(|fields|, |values|));
        }
        r := StoreEach(b, fields, values);
      case (TOptional(item), VOptional(v)) =>
        r := StoreBodyOptional(b, item, v);
      case (TArray(_), _) =>
        OtherKind(b.View(), ty, value);
        return Err(UnsupportedType);
      case (TMap(key, valueTy, keyBits), VMap(entries)) =>
        r := StoreBodyMap(b, key, valueTy, keyBits, entries);
      case (TUnknown(_), _) =>
        OtherKind(b.View(), ty, value);
        return Err(UnsupportedType);
      case _ =>
        OtherKind(b.View(), ty, value);
        return Err(TypeMismatch);
    }
  }

  /** The loop over the fields of a tuple or the parameters of a message. */
  method StoreEach(b: Builder, fields: seq<AbiParameter>, values: seq<AbiValue>) returns (r: Outcome<()>)
    requires b.Valid() && |fields| == |values|
    modifies b
    ensures b.Valid() && Stores(StoreFields(old(b.View()), fields, values), r, b.View())
    decreases fields, 0
  {
    hide StoreBody;
    for i := 0 to |fields|
      invariant b.Valid()
      invariant StoreFields(b.View(), fields[i..], values[i..]) == StoreFields(old(b.View()), fields, values)
    {
      assert fields[i..][1..] == fields[i + 1..] && values[i..][1..] == values[i + 1..];
      var stored := StoreBodyValue(b, fields[i].ty, values[i]);
      if stored.Err? {
        return Err(stored.error);
      }
    }
    return Ok(());
  }

  method EncodeMapValueCell(valueTy: AbiType, value: AbiValue) returns (r: Outcome<Cell>)
    ensures r == EncodeValueCell(valueTy, value)
    decreases valueTy, 1
  {
    hide StoreBody;
    var b := new Builder();
    var stored := StoreBodyValue(b, valueTy, value);
    if stored.Err? {
      return Err(stored.error);
    }
    var cell := b.Build();
    return Ok(cell);
  }

  /** Inserts the entries one by one into a dictionary, then writes the dictionary into a cell of its own. */
  method EncodeMapCell(keyTy: AbiType, valueTy: AbiType, explicitBits: Option<u16>, entries: seq<MapEntry>)
    returns (r: Outcome<Cell>)
    ensures r == EncodeMap(keyTy, valueTy, explicitBits, entries)
    decreases valueTy, 3
  {
    hide KeyToBits, EncodeValueCell, Insert, Contains, StoreDict;
    var keyBits := MapKeyBits(keyTy, explicitBits);
    if keyBits.Err? {
      return Err(keyBits.error);
    }
    var d: Dict := [];
    for i := 0 to |entries|
      invariant EncodeEntries(keyTy, valueTy, keyBits.value, entries[i..], d)
             == EncodeEntries(keyTy, valueTy, keyBits.value, entries, [])
    {
      assert entries[i..][1..] == entries[i + 1..];
      var key := KeyToBits(keyTy, entries[i].key, keyBits.value);
      if key.Err? {
        return Err(key.error);
      }
      var cell := EncodeMapValueCell(valueTy, entries[i].value);
      if cell.Err? {
        return Err(cell.error);
      }
      if Contains(d, key.value) {
        return Err(DuplicateMapKey(key.value));
      }
      d := Insert(d, key.value, cell.value);
    }
    return DictCell(d, keyBits.value);
  }

  // ----- Loading -----

  method LoadBodyRef(s: Slice) returns (r: Outcome<Cell>)
    requires s.Valid()
    modifies s
    ensures s.Valid() && Loads(OrMalformed(TakeRef(old(s.View()))), r, s.View())
  {
    var cell := s.LoadRef();
    return if cell.Some? then Ok(cell.value) else Err(MalformedBody);
  }

  method ReadSnakeBytes(cell: Cell) returns (r: Outcome<seq<byte>>)
    ensures r == ReadBytes(cell)
  {
    hide ReadSnake;
    var read := ReadSnakeCellInto(cell, []);
    if read.Ok? {
      var payload := ReadSnake(cell.bits, cell.refs).value;
      assert [] + payload == payload;
      return Ok(read.value);
    }
    return Err(MalformedSnake);
  }

  method LoadBodyValue(s: Slice, ty: AbiType) returns (r: Outcome<AbiValue>)
    requires s.Valid()
    modifies s
    ensures s.Valid() && Loads(LoadBody(old(s.View()), ty), r, s.View())
    decreases ty, 0
  {
    hide ToBits, FromBits, SignedValue, Pow2, ReadSnake, IntLoad, DecodeMap;
    match ty {
      case TInt(bits) =>
        if !WidthOk(bits) {
          return Err(InvalidIntegerWidth(bits));
        }
        var v := s.LoadInt(bits);
        if v == None {
          return Err(MalformedBody);
        }
        return if SignedFits(v.value, bits) then Ok(VInt(v.value)) else Err(IntegerOutOfRange);
      case TUint(bits) =>
        if !WidthOk(bits) {
          return Err(InvalidIntegerWidth(bits));
        }
        var v := s.LoadUint(bits);
        if v == None {
          return Err(MalformedBody);
        }
        return if UnsignedFits(v.value, bits) then Ok(VUint(v.value)) else Err(IntegerOutOfRange);
      case TBool =>
        var v := s.LoadBit();
        return if v == None then Err(MalformedBody) else Ok(VBool(v.value));
      case TBytes =>
        var cell := LoadBodyRef(s);
        if cell.Err? {
          return Err(cell.error);
        }
        var bytes := ReadSnakeBytes(cell.value);
        return if bytes.Err? then Err(bytes.error) else Ok(VBytes(bytes.value));
      case TString =>
        var cell := LoadBodyRef(s);
        if cell.Err? {
          return Err(cell.error);
        }
        var bytes := ReadSnakeBytes(cell.value);
        if bytes.Err? {
          return Err(bytes.error);
        }
        return if ValidUtf8(bytes.value) then Ok(VString(bytes.value)) else Err(InvalidUtf8);
      case TAddress =>
        var a := LoadMsgAddressInt(s);
        if a == None {
          return Err(MalformedBody);
        }
        var address := PlainAddress(a.value);
        return if address.Err? then Err(address.error) else Ok(VAddress(address.value));
      case TCell =>
        var cell := LoadBodyRef(s);
        return if cell.Err? then Err(cell.error) else Ok(VCell(cell.value));
      case TSlice =>
        var cell := LoadBodyRef(s);
        return if cell.Err? then Err(cell.error) else Ok(VSlice(cell.value));
      case TTuple(fields) =>
        var values := LoadEach(s, fields);
        return if values.Err? then Err(values.error) else Ok(VTuple(values.value));
      case TOptional(item) =>
        var present := s.LoadBit();
        if present == None {
          return Err(MalformedBody);
        }
        if !present.value {
          return Ok(VOptional(None));
        }
        var v := LoadBodyValue(s, item);
        return if v.Err? then Err(v.error) else Ok(VOptional(Some(v.value)));
      case TArray(_) =>
        return Err(UnsupportedType);
      case TMap(key, valueTy, keyBits) =>
        var cell := LoadBodyRef(s);
        if cell.Err? {
          return Err(cell.error);
        }
        var entries := DecodeMapCell(key, valueTy, keyBits, cell.value);
        return if entries.Err? then Err(entries.error) else Ok(VMap(entries.value));
      case TUnknown(_) =>
        return Err(UnsupportedType);
    }
  }

  method LoadEach(s: Slice, fields: seq<AbiParameter>) returns (r: Outcome<seq<AbiValue>>)
    requires s.Valid()
    modifies s
    ensures s.Valid() && Loads(LoadFields(old(s.View()), fields), r, s.View())
    decreases fields, 0
  {
    hide LoadBody;
    var values: seq<AbiValue> := [];
    assert forall vs: seq<AbiValue> :: [] + vs == vs;
    for i := 0 to |fields|
      invariant s.Valid()
      invariant LoadFields(old(s.View()), fields) == match LoadFields(s.View(), fields[i..])
        case Ok((vs, rest)) => Ok((values + vs, rest))
        case Err(e) => Err(e)
    {
      ghost var here, before := s.View(), values;
      assert fields[i..][1..] == fields[i + 1..];
      var v := LoadBodyValue(s, fields[i].ty);
      if v.Err? {
        return Err(v.error);
      }
      values := values + [v.value];
      assert forall vs: seq<AbiValue> :: before + ([v.value] + vs) == values + vs;
    }
    assert values + [] == values;
    return Ok(values);
  }

  method DecodeMapValueCell(valueTy: AbiType, cell: Cell) returns (r: Outcome<AbiValue>)
    ensures r == DecodeValueCell(valueTy, cell)
    decreases valueTy, 1
  {
    hide LoadBody;
    var s := new Slice(cell);
    var v := LoadBodyValue(s, valueTy);
    if v.Err? {
      return Err(v.error);
    }
    return if s.View() == EMPTY then v else Err(MalformedBody);
  }

  method DecodeMapCell(keyTy: AbiType, valueTy: AbiType, explicitBits: Option<u16>, cell: Cell)
    returns (r: Outcome<seq<MapEntry>>)
    ensures r == DecodeMap(keyTy, valueTy, explicitBits, cell)
    decreases valueTy, 3
  {
    hide BitsToKey, DecodeValueCell, CellDict;
    var keyBits := MapKeyBits(keyTy, explicitBits);
    if keyBits.Err? {
      return Err(keyBits.error);
    }
    var d := CellDict(cell, keyBits.value);
    if d.Err? {
      return Err(d.error);
    }
    var entries: seq<MapEntry> := [];
    assert forall es: seq<MapEntry> :: [] + es == es;
    for i := 0 to |d.value|
      invariant DecodeEntries(keyTy, valueTy, d.value) == match DecodeEntries(keyTy, valueTy, d.value[i..])
        case Ok(es) => Ok(entries + es)
        case Err(e) => Err(e)
    {
      ghost var before := entries;
      assert d.value[i..][1..] == d.value[i + 1..];
      var key := BitsToKey(keyTy, d.value[i].key);
      if key.Err? {
        return Err(key.error);
      }
      var value := DecodeMapValueCell(valueTy, d.value[i].value);
      if value.Err? {
        return Err(value.error);
      }
      var entry := MapEntry(key.value, value.value);
      entries := entries + [entry];
      assert forall es: seq<MapEntry> :: before + ([entry] + es) == entries + es;
    }
    assert entries + [] == entries;
    return Ok(entries);
  }

  // ----- Messages and events -----

  method StoreSelectorBits(b: Builder, selector: AbiSelector) returns (r: Outcome<()>)
    requires b.Valid()
    modifies b
    ensures b.Valid() && Stores(StoreSelector(old(b.View()), selector), r, b.View())
  {
    hide ToBits, Pow2;
    if selector.Opcode? {
      Pow2ThirtyTwo();
      var ok := b.StoreUint(selector.opcode, 32);
      return if ok then Ok(()) else Err(MalformedBody);
    }
    return Ok(());
  }

  method EncodeBody(selector: AbiSelector, fields: seq<AbiParameter>, values: seq<AbiValue>) returns (r: Outcome<Cell>)
    ensures r == EncodeWith(selector, fields, values)
  {
    hide StoreSelector, StoreFields;
    var b := new Builder();
    var selected := StoreSelectorBits(b, selector);
    if selected.Err? {
      return Err(selected.error);
    }
    if |fields| != |values| {
      return Err(ArityMismatch(|fields|, |values|));
    }
    var stored := StoreEach(b, fields, values);
    if stored.Err? {
      return Err(stored.error);
    }
    var cell := b.Build();
    return Ok(cell);
  }

  method DecodeBody(selector: AbiSelector, fields: seq<AbiParameter>, body: Cell) returns (r: Outcome<seq<AbiValue>>)
    ensures r == DecodeWith(selector, fields, body)
  {
    hide LoadFields, FromBits, Pow2;
    var s := new Slice(body);
    if selector.Opcode? {
      var actual := s.LoadUint(32);
      if actual == None {
        return Err(MalformedBody);
      }
      TakenUint(Contents(body), 32);
      Pow2ThirtyTwo();
      if actual.value != selector.opcode {
        return Err(OpcodeMismatch(selector.opcode, actual.value));
      }
    }
    var values := LoadEach(s, fields);
    if values.Err? {
      return Err(values.error);
    }
    if s.View() != EMPTY {
      return Err(TrailingBodyData(|s.View().bits|, |s.View().refs|));
    }
    return values;
  }

  method RunEncodeMessageBody(f: AbiFunction, values: seq<AbiValue>) returns (r: Outcome<Cell>)
    ensures r == EncodeMessageBody(f, values)
  {
    hide EncodeWith;
    if f.kind.GetMethod? || f.selector.MethodId? {
      return Err(InvalidMessageSelector);
    }
    r := EncodeBody(f.selector, f.inputs, values);
  }

  method RunDecodeMessageBody(f: AbiFunction, body: Cell) returns (r: Outcome<seq<AbiValue>>)
    ensures r == DecodeMessageBody(f, body)
  {
    hide DecodeWith;
    if f.kind.GetMethod? || f.selector.MethodId? {
      return Err(InvalidMessageSelector);
    }
    r := DecodeBody(f.selector, f.inputs, body);
  }
}
