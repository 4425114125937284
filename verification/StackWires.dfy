/**
 * ABI values as TVM stack entries, as a relation: which entry stands for which value, type by type, and which values
 * have an entry at all (src/abi/model.rs).
 */
module StackWires {
  import opened AbiCodec
  import opened AbiEncodable
  import opened AbiLayout
  import opened AbiModel
  import opened AbiStack
  import opened AbiWires
  import opened Addresses
  import opened Bits
  import opened Cells
  import opened Snake
  import opened Wires
  import opened Wrappers

  // ----- Entries and the values they stand for -----

  /** Numbers as they are, true as minus one, an absent optional as null and a present one as its content. */
  ghost predicate Shown(ty: AbiType, entry: StackEntry, value: AbiValue)
    decreases ty, 0
  {
    match (ty, value)
    case (TInt(bits), VInt(n)) => IsInt(n, bits) && entry == EInt(n)
    case (TUint(bits), VUint(n)) => IsUint(n, bits) && entry == EInt(n)
    case (TBool, VBool(true)) => entry == EInt(-1)
    case (TBool, VBool(false)) => entry == EInt(0)
    case (TBytes, VBytes(bytes)) => entry.ECell? && HoldsBytes(entry.cell, bytes)
    case (TString, VString(utf8)) => entry.ECell? && HoldsBytes(entry.cell, utf8)
    case (TAddress, VAddress(a)) =>
      a.bounceable && !a.testOnly && entry.ESlice? && entry.cell.bits == StdWire(a) && entry.cell.refs == []
    case (TCell, VCell(cell)) => entry == ECell(cell)
    case (TSlice, VSlice(cell)) => entry == ESlice(cell)
    case (TTuple(fields), VTuple(values)) => entry.ETuple? && EachShown(fields, entry.entries, values)
    case (TArray(item), VArray(values)) => entry.EList? && AllShown(item, entry.entries, values)
    case (TOptional(_), VOptional(None)) => entry == ENull
    case (TOptional(item), VOptional(Some(v))) => entry != ENull && Shown(item, entry, v)
    case (TMap(key, valueTy, keyBits), VMap(entries)) =>
      entry.ECell? && MapSpelled(key, valueTy, keyBits, entry.cell, entries)
    case _ => false
  }

  ghost predicate EachShown(fields: seq<AbiParameter>, entries: seq<StackEntry>, values: seq<AbiValue>)
    decreases fields, 0
  {
    && |fields| == |entries| == |values|
    && (fields != [] ==>
          Shown(fields[0].ty, entries[0], values[0]) && EachShown(fields[1..], entries[1..], values[1..]))
  }

  ghost predicate AllShown(item: AbiType, entries: seq<StackEntry>, values: seq<AbiValue>)
    decreases item, 1, |entries|
  {
    && |entries| == |values|
    && (entries != [] ==> Shown(item, entries[0], values[0]) && AllShown(item, entries[1..], values[1..]))
  }

  /** An entry decodes to a value exactly when it stands for it. */
  lemma {:induction false} DecodesIff(ty: AbiType, entry: StackEntry, value: AbiValue)
    ensures StackDecode(ty, entry) == Ok(value) <==> Shown(ty, entry, value)
    decreases ty, 0
  {
    hide StackDecode, Shown;
    match ty
    case TTuple(fields) => TupleDecodesIff(fields, entry, value);
    case TArray(item) => ListDecodesIff(item, entry, value);
    case TOptional(item) => OptionalDecodesIff(item, entry, value);
    case TMap(key, valueTy, keyBits) => MapDecodes(key, valueTy, keyBits, entry, value);
    case TUnknown(_) => UnknownDecodesIff(ty, entry, value);
    case TInt(_) => NumberDecodesIff(ty, entry, value);
    case TUint(_) => NumberDecodesIff(ty, entry, value);
    case TBool => BoolDecodesIff(entry, value);
    case TBytes => BytesDecodeIff(entry, value);
    case TString => StringDecodesIff(entry, value);
    case TAddress => AddressDecodesIff(entry, value);
    case TCell => CellDecodesIff(entry, value);
    case TSlice => CellDecodesIff(entry, value);
  }

  lemma NumberDecodesIff(ty: AbiType, entry: StackEntry, value: AbiValue)
    requires ty.TInt? || ty.TUint?
    ensures StackDecode(ty, entry) == Ok(value) <==> Shown(ty, entry, value)
  {
    hide Pow2;
  }

  lemma BoolDecodesIff(entry: StackEntry, value: AbiValue)
    ensures StackDecode(TBool, entry) == Ok(value) <==> Shown(TBool, entry, value)
  {
  }

  lemma CellDecodesIff(entry: StackEntry, value: AbiValue)
    ensures StackDecode(TCell, entry) == Ok(value) <==> Shown(TCell, entry, value)
    ensures StackDecode(TSlice, entry) == Ok(value) <==> Shown(TSlice, entry, value)
  {
  }

  lemma BytesDecodeIff(entry: StackEntry, value: AbiValue)
    ensures StackDecode(TBytes, entry) == Ok(value) <==> Shown(TBytes, entry, value)
  {
    hide ReadBytes, HoldsBytes;
    if entry.ECell? && value.VBytes? {
      BytesShown(entry.cell, value.bytes);
    }
  }

  lemma StringDecodesIff(entry: StackEntry, value: AbiValue)
    ensures StackDecode(TString, entry) == Ok(value) <==> Shown(TString, entry, value)
  {
    hide ReadUtf8, HoldsBytes;
    if entry.ECell? && value.VString? {
      StringShown(entry.cell, value.utf8);
    }
  }

  lemma AddressDecodesIff(entry: StackEntry, value: AbiValue)
    ensures StackDecode(TAddress, entry) == Ok(value) <==> Shown(TAddress, entry, value)
  {
    hide DecodeAddressSlice, StdWire;
    if entry.ESlice? && value.VAddress? {
      AddressShown(entry.cell, value.address);
    }
  }

  lemma UnknownDecodesIff(ty: AbiType, entry: StackEntry, value: AbiValue)
    requires ty.TUnknown?
    ensures StackDecode(ty, entry) != Ok(value) && !Shown(ty, entry, value)
  {
  }

  lemma TupleDecodesIff(fields: seq<AbiParameter>, entry: StackEntry, value: AbiValue)
    ensures StackDecode(TTuple(fields), entry) == Ok(value) <==> Shown(TTuple(fields), entry, value)
    decreases fields, 1
  {
    hide DecodeEach, EachShown;
    if entry.ETuple? && value.VTuple? {
      EachDecodesIff(fields, entry.entries, value.values);
      LengthsShown(fields, entry.entries, value.values);
    }
  }

  lemma LengthsShown(fields: seq<AbiParameter>, entries: seq<StackEntry>, values: seq<AbiValue>)
    ensures EachShown(fields, entries, values) ==> |fields| == |entries| == |values|
  {
    hide Shown;
  }

  lemma ListDecodesIff(item: AbiType, entry: StackEntry, value: AbiValue)
    ensures StackDecode(TArray(item), entry) == Ok(value) <==> Shown(TArray(item), entry, value)
    decreases item, 2
  {
    hide DecodeAll, AllShown;
    if entry.EList? && value.VArray? {
      AllDecodeIff(item, entry.entries, value.values);
    }
  }

  lemma OptionalDecodesIff(item: AbiType, entry: StackEntry, value: AbiValue)
    ensures StackDecode(TOptional(item), entry) == Ok(value) <==> Shown(TOptional(item), entry, value)
    decreases item, 1
  {
    hide StackDecode, Shown;
    OptionalStep(item, entry);
    OptionalShown(item, entry, value);
    if value.VOptional? && value.value.Some? {
      DecodesIff(item, entry, value.value.value);
    }
  }

  lemma OptionalStep(item: AbiType, entry: StackEntry)
    ensures StackDecode(TOptional(item), entry) ==
      if entry.ENull? then Ok(VOptional(None))
      else match StackDecode(item, entry)
        case Ok(v) => Ok(VOptional(Some(v)))
        case Err(e) => Err(e)
  {
    hide DecodeEach, DecodeAll, DecodeMap, ReadBytes, ReadUtf8, DecodeAddressSlice, ValidateWidth, EnsureSignedRange,
      EnsureUnsignedRange;
  }

  lemma OptionalShown(item: AbiType, entry: StackEntry, value: AbiValue)
    ensures Shown(TOptional(item), entry, value) <==>
      && value.VOptional?
      && (if value.value == None then entry == ENull else entry != ENull && Shown(item, entry, value.value.value))
  {
    hide EachShown, AllShown, MapSpelled, HoldsBytes, IsInt, IsUint, StdWire;
  }

  lemma MapDecodes(key: AbiType, valueTy: AbiType, keyBits: Option<u16>, entry: StackEntry, value: AbiValue)
    ensures StackDecode(TMap(key, valueTy, keyBits), entry) == Ok(value)
       <==> Shown(TMap(key, valueTy, keyBits), entry, value)
  {
    hide DecodeMap, MapSpelled;
    if entry.ECell? && value.VMap? {
      MapDecodesIff(key, valueTy, keyBits, entry.cell, value.entries);
    }
  }

  lemma BytesShown(cell: Cell, bytes: seq<byte>)
    ensures ReadBytes(cell) == Ok(bytes) <==> HoldsBytes(cell, bytes)
  {
    hide ReadSnake, HoldsBytes;
    HoldsIff(cell, bytes);
  }

  lemma StringShown(cell: Cell, utf8: Utf8)
    ensures ReadUtf8(cell) == Ok(utf8) <==> HoldsBytes(cell, utf8)
  {
    hide ReadBytes, HoldsBytes, ValidUtf8;
    BytesShown(cell, utf8);
  }

  lemma AddressShown(cell: Cell, a: Address)
    ensures DecodeAddressSlice(cell) == Ok(a)
       <==> a.bounceable && !a.testOnly && cell.bits == StdWire(a) && cell.refs == []
  {
    hide MsgAddressLoad, StdWire, AddressWire;
    var std := Internal(Std(None, a));
    StdSpelled(a);
    AddressReadsIff(cell.bits, EMPTY, std);
    assert OfBits(cell.bits).Then(EMPTY) == OfBits(cell.bits) by {
      ThenEmpty(OfBits(cell.bits));
    }
    if DecodeAddressSlice(cell) == Ok(a) {
      MsgAddressIsLossless(Contents(cell));
      assert MsgAddressLoad(Contents(cell)) == Some((std, EMPTY));
      StdIsWritten(None, a);
      ThenEmpty(OfBits(StdWire(a)));
    }
  }

  lemma {:induction false} EachDecodesIff(fields: seq<AbiParameter>, entries: seq<StackEntry>, values: seq<AbiValue>)
    ensures |fields| == |entries| && DecodeEach(fields, entries) == Ok(values) <==> EachShown(fields, entries, values)
    decreases fields, 0
  {
    hide StackDecode, Shown;
    if fields != [] && entries != [] && values != [] {
      assert values == [values[0]] + values[1..];
      DecodesIff(fields[0].ty, entries[0], values[0]);
      EachDecodesIff(fields[1..], entries[1..], values[1..]);
    }
  }

  lemma {:induction false} AllDecodeIff(item: AbiType, entries: seq<StackEntry>, values: seq<AbiValue>)
    ensures DecodeAll(item, entries) == Ok(values) <==> AllShown(item, entries, values)
    decreases item, 1, |entries|
  {
    hide StackDecode, Shown;
    if entries != [] && values != [] {
      assert values == [values[0]] + values[1..];
      DecodesIff(item, entries[0], values[0]);
      AllDecodeIff(item, entries[1..], values[1..]);
    }
  }

  // ----- Which values have an entry -----

  /** As for bodies, but with arrays and with no room to run out of outside of maps. */
  predicate Stackable(ty: AbiType, value: AbiValue)
    decreases ty, 0
  {
    match (ty, value)
    case (TTuple(fields), VTuple(values)) =>
      |fields| == |values| && forall i :: 0 <= i < |fields| ==> Stackable(fields[i].ty, values[i])
    case (TArray(item), VArray(values)) => forall i :: 0 <= i < |values| ==> Stackable(item, values[i])
    case (TOptional(item), VOptional(v)) => v.Some? ==> Stackable(item, v.value)
    case _ => Encodable(ty, value)
  }

  lemma {:induction false} StackEncodesIff(ty: AbiType, value: AbiValue)
    ensures StackEncode(value, ty).Ok? <==> Stackable(ty, value)
    decreases ty, 0
  {
    match (ty, value)
    case (TTuple(fields), VTuple(values)) => if |fields| == |values| { EachEncodesIff(fields, values); }
    case (TArray(item), VArray(values)) => AllEncodeIff(item, values);
    case (TOptional(item), VOptional(Some(v))) => StackEncodesIff(item, v);
    case (TMap(key, valueTy, keyBits), VMap(entries)) =>
      hide EncodeMap, EncodableKeys, EncodableValues;
      MapEncodesIff(key, valueTy, keyBits, entries);
    case _ => PlainEncodesIff(ty, value);
  }

  lemma PlainEncodesIff(ty: AbiType, value: AbiValue)
    requires !(ty.TTuple? && value.VTuple?) && !(ty.TArray? && value.VArray?) && !(ty.TMap? && value.VMap?)
    requires ty.TOptional? && value.VOptional? ==> value.value == None
    ensures StackEncode(value, ty).Ok? <==> Stackable(ty, value)
  {
    hide SnakeCell, AddressCell, Pow2, EncodeMap, EncodableKeys, EncodableValues, EncodeEach, EncodeAll;
  }

  /** The entry made for a value stands for its normal form. */
  lemma EncodedIsShown(ty: AbiType, value: AbiValue)
    requires StackEncode(value, ty).Ok?
    ensures Shown(ty, StackEncode(value, ty).value, StackNormal(ty, value))
  {
    hide StackEncode, StackDecode, StackNormal, Shown;
    StackRoundTrip(ty, value);
    DecodesIff(ty, StackEncode(value, ty).value, StackNormal(ty, value));
  }

  lemma {:induction false} EachEncodesIff(fields: seq<AbiParameter>, values: seq<AbiValue>)
    requires |fields| == |values|
    ensures EncodeEach(fields, values).Ok? <==> forall i :: 0 <= i < |fields| ==> Stackable(fields[i].ty, values[i])
    decreases fields, 0
  {
    hide StackEncode, Stackable;
    if fields != [] {
      var laterFields, laterValues := fields[1..], values[1..];
      StackEncodesIff(fields[0].ty, values[0]);
      EachEncodesIff(laterFields, laterValues);
      assert forall i :: 0 <= i < |laterFields| ==>
          laterFields[i] == fields[i + 1] && laterValues[i] == values[i + 1];
      assert forall i :: 0 < i < |fields| ==> fields[i] == laterFields[i - 1] && values[i] == laterValues[i - 1];
    }
  }

  lemma {:induction false} AllEncodeIff(item: AbiType, values: seq<AbiValue>)
    ensures EncodeAll(item, values).Ok? <==> forall i :: 0 <= i < |values| ==> Stackable(item, values[i])
    decreases item, 1, |values|
  {
    hide StackEncode, Stackable;
    if values != [] {
      var later := values[1..];
      StackEncodesIff(item, values[0]);
      AllEncodeIff(item, later);
      assert forall i :: 0 <= i < |later| ==> later[i] == values[i + 1];
      assert forall i :: 0 < i < |values| ==> values[i] == later[i - 1];
    }
  }
}
