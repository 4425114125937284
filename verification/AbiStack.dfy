/**
 * ABI values as TVM stack entries (src/abi/model.rs). A missing optional is the null entry and a present one is the
 * entry of its content, so a chain of `Some` that ends in `None` comes back as one `None`. Map values are stored in
 * body form, where nothing collapses.
 */
module AbiStack {
  import opened AbiCodec
  import opened AbiLayout
  import opened AbiMaps
  import opened AbiMessages
  import opened AbiModel
  import opened AbiReencode
  import opened AbiRoundTrip
  import opened Addresses
  import opened Bits
  import opened Cells
  import opened Snake
  import opened Wrappers

  datatype StackEntry =
    | ENull
    | EInt(int_: int)
    | ECell(cell: Cell)
    | ESlice(cell: Cell)
    | ETuple(entries: seq<StackEntry>)
    | EList(entries: seq<StackEntry>)
    | EUnsupported(raw: seq<byte>)

  // ----- Encoding -----

  function AddressCell(address: Address): Cell {
    StdLayout(address).ToCell()
  }

  function StackEncode(value: AbiValue, ty: AbiType): Outcome<StackEntry>
    decreases ty, 0
  {
    match (ty, value)
    case (TInt(bits), VInt(v)) =>
      var _ :- ValidateWidth(bits);
      var _ :- EnsureSignedRange(v, bits);
      Ok(EInt(v))
    case (TUint(bits), VUint(v)) =>
      var _ :- ValidateWidth(bits);
      var _ :- EnsureUnsignedRange(v, bits);
      Ok(EInt(v))
    case (TBool, VBool(v)) => Ok(EInt(if v then -1 else 0))
    case (TBytes, VBytes(bytes)) => Ok(ECell(SnakeCell(bytes)))
    case (TString, VString(utf8)) => Ok(ECell(SnakeCell(utf8)))
    case (TAddress, VAddress(address)) => Ok(ESlice(AddressCell(address)))
    case (TCell, VCell(cell)) => Ok(ECell(cell))
    case (TSlice, VSlice(cell)) => Ok(ESlice(cell))
    case (TTuple(fields), VTuple(values)) =>
      if |fields| != |values| then Err(ArityMismatch(|fields|, |values|))
      else
        var entries :- EncodeEach(fields, values);
        Ok(ETuple(entries))
    case (TArray(item), VArray(values)) =>
      var entries :- EncodeAll(item, values);
      Ok(EList(entries))
    case (TOptional(_), VOptional(None)) => Ok(ENull)
    case (TOptional(item), VOptional(Some(v))) => StackEncode(v, item)
    case (TMap(key, valueTy, keyBits), VMap(entries)) =>
      var cell :- EncodeMap(key, valueTy, keyBits, entries);
      Ok(ECell(cell))
    case (TUnknown(_), _) => Err(UnsupportedType)
    case _ => Err(TypeMismatch)
  }

  function EncodeEach(fields: seq<AbiParameter>, values: seq<AbiValue>): (r: Outcome<seq<StackEntry>>)
    requires |fields| == |values|
    ensures r.Ok? ==> |r.value| == |fields|
    decreases fields, 0
  {
    if fields == [] then Ok([])
    else
      var e :- StackEncode(values[0], fields[0].ty);
      var es :- EncodeEach(fields[1..], values[1..]);
      Ok([e] + es)
  }

  function EncodeAll(item: AbiType, values: seq<AbiValue>): Outcome<seq<StackEntry>>
    decreases item, 1, |values|
  {
    if values == [] then Ok([])
    else
      var e :- StackEncode(values[0], item);
      var es :- EncodeAll(item, values[1..]);
      Ok([e] + es)
  }

  // ----- Decoding -----

  function DecodeAddressSlice(cell: Cell): Outcome<Address> {
    match MsgAddressLoad(Contents(cell))
    case None => Err(MalformedAddress)
    case Some((a, rest)) =>
      if rest != EMPTY then Err(MalformedAddress)
      else match a
        case Internal(i) => PlainAddress(i)
        case External(_) => Err(MalformedAddress)
  }

  function StackDecode(ty: AbiType, entry: StackEntry): Outcome<AbiValue>
    decreases ty, 0
  {
    match ty
    case TInt(bits) =>
      var _ :- ValidateWidth(bits);
      if !entry.EInt? then Err(TypeMismatch)
      else
        var _ :- EnsureSignedRange(entry.int_, bits);
        Ok(VInt(entry.int_))
    case TUint(bits) =>
      var _ :- ValidateWidth(bits);
      if !entry.EInt? then Err(TypeMismatch)
      else if entry.int_ < 0 then Err(IntegerOutOfRange)
      else
        var _ :- EnsureUnsignedRange(entry.int_, bits);
        Ok(VUint(entry.int_))
    case TBool =>
      if !entry.EInt? then Err(TypeMismatch)
      else if entry.int_ == -1 then Ok(VBool(true))
      else if entry.int_ == 0 then Ok(VBool(false))
      else Err(InvalidBool)
    case TBytes =>
      if !entry.ECell? then Err(TypeMismatch)
      else
        var bytes :- ReadBytes(entry.cell);
        Ok(VBytes(bytes))
    case TString =>
      if !entry.ECell? then Err(TypeMismatch)
      else
        var utf8 :- ReadUtf8(entry.cell);
        Ok(VString(utf8))
    case TAddress =>
      if !entry.ESlice? then Err(TypeMismatch)
      else
        var address :- DecodeAddressSlice(entry.cell);
        Ok(VAddress(address))
    case TCell => if entry.ECell? then Ok(VCell(entry.cell)) else Err(TypeMismatch)
    case TSlice => if entry.ESlice? then Ok(VSlice(entry.cell)) else Err(TypeMismatch)
    case TTuple(fields) =>
      if !entry.ETuple? then Err(TypeMismatch)
      else if |fields| != |entry.entries| then Err(ArityMismatch(|fields|, |entry.entries|))
      else
        var values :- DecodeEach(fields, entry.entries);
        Ok(VTuple(values))
    case TArray(item) =>
      if !entry.EList? then Err(TypeMismatch)
      else
        var values :- DecodeAll(item, entry.entries);
        Ok(VArray(values))
    case TOptional(item) =>
      if entry.ENull? then Ok(VOptional(None))
      else
        var v :- StackDecode(item, entry);
        Ok(VOptional(Some(v)))
    case TMap(key, valueTy, keyBits) =>
      if !entry.ECell? then Err(TypeMismatch)
      else
        var entries :- DecodeMap(key, valueTy, keyBits, entry.cell);
        Ok(VMap(entries))
    case TUnknown(_) => Err(UnsupportedType)
  }

  function DecodeEach(fields: seq<AbiParameter>, entries: seq<StackEntry>): (r: Outcome<seq<AbiValue>>)
    requires |fields| == |entries|
    ensures r.Ok? ==> |r.value| == |fields|
    decreases fields, 0
  {
    if fields == [] then Ok([])
    else
      var v :- StackDecode(fields[0].ty, entries[0]);
      var vs :- DecodeEach(fields[1..], entries[1..]);
      Ok([v] + vs)
  }

  function DecodeAll(item: AbiType, entries: seq<StackEntry>): Outcome<seq<AbiValue>>
    decreases item, 1, |entries|
  {
    if entries == [] then Ok([])
    else
      var v :- StackDecode(item, entries[0]);
      var vs :- DecodeAll(item, entries[1..]);
      Ok([v] + vs)
  }

  // ----- Normal forms -----

  function StackNormal(ty: AbiType, value: AbiValue): AbiValue
    decreases ty, 0
  {
    match (ty, value)
    case (TAddress, VAddress(address)) => VAddress(NormalAddress(address))
    case (TTuple(fields), VTuple(values)) => VTuple(NormalEach(fields, values))
    case (TArray(item), VArray(values)) => VArray(NormalAll(item, values))
    case (TOptional(item), VOptional(Some(v))) =>
      var n := StackNormal(item, v);
      if item.TOptional? && n == VOptional(None) then VOptional(None) else VOptional(Some(n))
    case (TMap(key, valueTy, _), VMap(entries)) => VMap(NormalEntries(key, valueTy, entries))
    case _ => value
  }

  function NormalEach(fields: seq<AbiParameter>, values: seq<AbiValue>): (r: seq<AbiValue>)
    ensures |r| == |values|
    decreases fields, 0
  {
    if fields == [] || values == [] then values
    else [StackNormal(fields[0].ty, values[0])] + NormalEach(fields[1..], values[1..])
  }

  function NormalAll(item: AbiType, values: seq<AbiValue>): (r: seq<AbiValue>)
    ensures |r| == |values|
    decreases item, 1, |values|
  {
    if values == [] then [] else [StackNormal(item, values[0])] + NormalAll(item, values[1..])
  }

  /** No `Some(None)`, default address flags, ascending map keys, and map values normal in body form. */
  predicate IsStackNormal(ty: AbiType, value: AbiValue)
    decreases ty, 0
  {
    match (ty, value)
    case (TAddress, VAddress(a)) => a.bounceable && !a.testOnly
    case (TTuple(fields), VTuple(values)) => |fields| == |values| && EachNormal(fields, values)
    case (TArray(item), VArray(values)) => AllNormal(item, values)
    case (TOptional(item), VOptional(Some(v))) => v != VOptional(None) && IsStackNormal(item, v)
    case (TMap(_, valueTy, _), VMap(entries)) => KeysAscend(entries) && ValuesAreNormal(valueTy, entries)
    case _ => true
  }

  predicate EachNormal(fields: seq<AbiParameter>, values: seq<AbiValue>)
    requires |fields| == |values|
    decreases fields, 0
  {
    fields == [] || (IsStackNormal(fields[0].ty, values[0]) && EachNormal(fields[1..], values[1..]))
  }

  predicate AllNormal(item: AbiType, values: seq<AbiValue>)
    decreases item, 1, |values|
  {
    values == [] || (IsStackNormal(item, values[0]) && AllNormal(item, values[1..]))
  }

  // ----- The round trip, up to the normal form -----

  lemma AddressSliceReads(address: Address)
    ensures DecodeAddressSlice(AddressCell(address)) == Ok(NormalAddress(address))
    ensures AddressCell(NormalAddress(address)) == AddressCell(address)
  {
    hide MsgAddressLoad, IntLayout;
    assert IntLayout(Std(None, address)) == Some(StdLayout(address));
    IntReads(Std(None, address), EMPTY);
    ThenEmpty(StdLayout(address));
    assert Contents(AddressCell(address)) == StdLayout(address);
    AddressReads(address, EMPTY);
  }

  /** What the round trip gives, for one value. */
  ghost predicate ComesBack(ty: AbiType, value: AbiValue, entry: StackEntry) {
    && StackDecode(ty, entry) == Ok(StackNormal(ty, value))
    && StackEncode(StackNormal(ty, value), ty) == Ok(entry)
    && (entry == ENull <==> ty.TOptional? && StackNormal(ty, value) == VOptional(None))
  }

  /**
   * Decoding an encoded value gives its normal form, the normal form encodes to the same entry, and the entry is null
   * exactly when the normal form is an absent optional.
   */
  lemma {:induction false} StackRoundTrip(ty: AbiType, value: AbiValue)
    requires StackEncode(value, ty).Ok?
    ensures ComesBack(ty, value, StackEncode(value, ty).value)
    decreases ty, 0
  {
    hide SnakeCell, ReadBytes, ReadUtf8, AddressCell, DecodeAddressSlice, EncodeMap, DecodeMap, NormalEntries,
         EncodeEach, DecodeEach, NormalEach, EncodeAll, DecodeAll, NormalAll, Pow2;
    match (ty, value)
    case (TBytes, VBytes(bytes)) => BytesRead(bytes, EMPTY);
    case (TString, VString(utf8)) => Utf8Reads(utf8);
    case (TAddress, VAddress(address)) => AddressSliceReads(address);
    case (TTuple(fields), VTuple(values)) => EachRoundTrip(fields, values);
    case (TArray(item), VArray(values)) => AllRoundTrip(item, values);
    case (TOptional(item), VOptional(Some(v))) => StackRoundTrip(item, v);
    case (TMap(key, valueTy, keyBits), VMap(entries)) => MapCellRoundTrip(key, valueTy, keyBits, entries);
    case _ =>
  }

  lemma Utf8Reads(utf8: Utf8)
    ensures ReadUtf8(SnakeCell(utf8)) == Ok(utf8)
  {
    hide SnakeCell, ReadBytes;
    BytesRead(utf8, EMPTY);
  }

  lemma MapCellRoundTrip(keyTy: AbiType, valueTy: AbiType, keyBits: Option<u16>, entries: seq<MapEntry>)
    requires EncodeMap(keyTy, valueTy, keyBits, entries).Ok?
    ensures DecodeMap(keyTy, valueTy, keyBits, EncodeMap(keyTy, valueTy, keyBits, entries).value)
         == Ok(NormalEntries(keyTy, valueTy, entries))
    ensures EncodeMap(keyTy, valueTy, keyBits, NormalEntries(keyTy, valueTy, entries))
         == EncodeMap(keyTy, valueTy, keyBits, entries)
  {
    hide EncodeMap, DecodeMap, NormalEntries, MapLayout;
    EncodeMapIsLayout(keyTy, valueTy, keyBits, entries);
    MapReads(keyTy, valueTy, keyBits, entries);
    EncodeMapIsLayout(keyTy, valueTy, keyBits, NormalEntries(keyTy, valueTy, entries));
  }

  lemma {:induction false} EachRoundTrip(fields: seq<AbiParameter>, values: seq<AbiValue>)
    requires |fields| == |values| && EncodeEach(fields, values).Ok?
    ensures DecodeEach(fields, EncodeEach(fields, values).value) == Ok(NormalEach(fields, values))
    ensures EncodeEach(fields, NormalEach(fields, values)) == EncodeEach(fields, values)
    decreases fields, 0
  {
    hide StackEncode, StackDecode, StackNormal;
    if fields != [] {
      StackRoundTrip(fields[0].ty, values[0]);
      EachRoundTrip(fields[1..], values[1..]);
      var entries, normal := EncodeEach(fields, values).value, NormalEach(fields, values);
      assert entries[1..] == EncodeEach(fields[1..], values[1..]).value;
      assert normal[0] == StackNormal(fields[0].ty, values[0]) && normal[1..] == NormalEach(fields[1..], values[1..]);
    }
  }

  lemma {:induction false} AllRoundTrip(item: AbiType, values: seq<AbiValue>)
    requires EncodeAll(item, values).Ok?
    ensures DecodeAll(item, EncodeAll(item, values).value) == Ok(NormalAll(item, values))
    ensures EncodeAll(item, NormalAll(item, values)) == EncodeAll(item, values)
    decreases item, 1, |values|
  {
    hide StackEncode, StackDecode, StackNormal;
    if values != [] {
      StackRoundTrip(item, values[0]);
      AllRoundTrip(item, values[1..]);
      var entries, normal := EncodeAll(item, values).value, NormalAll(item, values);
      assert entries[1..] == EncodeAll(item, values[1..]).value;
      assert normal[0] == StackNormal(item, values[0]) && normal[1..] == NormalAll(item, values[1..]);
    }
  }

  // ----- Consequences -----

  /** Two values give one stack entry exactly when they have one normal form. */
  lemma StackAlikeIffSameNormal(ty: AbiType, a: AbiValue, b: AbiValue)
    requires StackEncode(a, ty).Ok? && StackEncode(b, ty).Ok?
    ensures StackEncode(a, ty) == StackEncode(b, ty) <==> StackNormal(ty, a) == StackNormal(ty, b)
  {
    hide StackEncode, StackDecode, StackNormal;
    StackRoundTrip(ty, a);
    StackRoundTrip(ty, b);
  }

  /** An encodable value survives the stack unchanged exactly when it is in normal form. */
  lemma {:induction false} StackUnchangedIffNormal(ty: AbiType, value: AbiValue)
    requires StackEncode(value, ty).Ok?
    ensures StackNormal(ty, value) == value <==> IsStackNormal(ty, value)
    decreases ty, 0
  {
    hide EncodeMap, MapLayout, NormalEntries, KeysAscend, ValuesAreNormal, EachNormal, AllNormal, NormalEach, NormalAll,
         EncodeEach, EncodeAll, Pow2;
    match (ty, value)
    case (TTuple(fields), VTuple(values)) => EachUnchanged(fields, values);
    case (TArray(item), VArray(values)) => AllUnchanged(item, values);
    case (TOptional(item), VOptional(Some(v))) =>
      StackUnchangedIffNormal(item, v);
      OnlyOptionalsAreAbsent(item, v);
    case (TMap(key, valueTy, keyBits), VMap(entries)) =>
      EncodeMapIsLayout(key, valueTy, keyBits, entries);
      MapUnchanged(key, valueTy, keyBits, entries);
    case _ =>
  }

  lemma OnlyOptionalsAreAbsent(ty: AbiType, value: AbiValue)
    requires StackEncode(value, ty).Ok?
    ensures value == VOptional(None) ==> ty.TOptional? && StackNormal(ty, value) == value
  {
  }

  lemma {:induction false} EachUnchanged(fields: seq<AbiParameter>, values: seq<AbiValue>)
    requires |fields| == |values| && EncodeEach(fields, values).Ok?
    ensures NormalEach(fields, values) == values <==> EachNormal(fields, values)
    decreases fields, 0
  {
    hide StackEncode, StackNormal, IsStackNormal;
    if fields != [] {
      StackUnchangedIffNormal(fields[0].ty, values[0]);
      EachUnchanged(fields[1..], values[1..]);
      var n := NormalEach(fields, values);
      assert n[0] == StackNormal(fields[0].ty, values[0]) && n[1..] == NormalEach(fields[1..], values[1..]);
      assert values == [values[0]] + values[1..];
    }
  }

  lemma {:induction false} AllUnchanged(item: AbiType, values: seq<AbiValue>)
    requires EncodeAll(item, values).Ok?
    ensures NormalAll(item, values) == values <==> AllNormal(item, values)
    decreases item, 1, |values|
  {
    hide StackEncode, StackNormal, IsStackNormal;
    if values != [] {
      StackUnchangedIffNormal(item, values[0]);
      AllUnchanged(item, values[1..]);
      var n := NormalAll(item, values);
      assert n[0] == StackNormal(item, values[0]) && n[1..] == NormalAll(item, values[1..]);
      assert values == [values[0]] + values[1..];
    }
  }

  /** A nested absent optional is lost on the stack but kept in a body. */
  lemma NestedAbsenceCollapsesOnlyOnTheStack(item: AbiType, rest: Chunk)
    ensures var ty := TOptional(TOptional(item));
      var value := VOptional(Some(VOptional(None)));
      && StackEncode(value, ty) == Ok(ENull) && StackDecode(ty, ENull) == Ok(VOptional(None))
      && Layout(ty, value).Some? && LoadBody(Layout(ty, value).value.Then(rest), ty) == Ok((value, rest))
  {
    var ty := TOptional(TOptional(item));
    var value := VOptional(Some(VOptional(None)));
    assert StackEncode(VOptional(None), TOptional(item)) == Ok(ENull);
    assert Layout(TOptional(item), VOptional(None)).Some?;
    assert Normal(TOptional(item), VOptional(None)) == VOptional(None);
    BodyReads(ty, value, rest);
  }

  // ----- Get-method inputs and outputs -----

  function EnsureGetMethod(f: AbiFunction): Outcome<()> {
    if f.kind.GetMethod? && !f.selector.Opcode? then Ok(()) else Err(InvalidGetMethodSelector)
  }

  function EncodeGetMethodInputs(f: AbiFunction, values: seq<AbiValue>): Outcome<seq<StackEntry>> {
    var _ :- EnsureGetMethod(f);
    if |f.inputs| != |values| then Err(ArityMismatch(|f.inputs|, |values|)) else EncodeEach(f.inputs, values)
  }

  function DecodeGetMethodOutputs(f: AbiFunction, entries: seq<StackEntry>): Outcome<seq<AbiValue>> {
    var _ :- EnsureGetMethod(f);
    if |f.outputs| != |entries| then Err(ArityMismatch(|f.outputs|, |entries|)) else DecodeEach(f.outputs, entries)
  }

  /** Feeding one get-method's inputs to another with the same types among its outputs gives the normal forms back. */
  lemma GetMethodRoundTrip(f: AbiFunction, g: AbiFunction, values: seq<AbiValue>)
    requires EncodeGetMethodInputs(f, values).Ok? && EnsureGetMethod(g).Ok? && g.outputs == f.inputs
    ensures DecodeGetMethodOutputs(g, EncodeGetMethodInputs(f, values).value) == Ok(NormalEach(f.inputs, values))
  {
    hide EncodeEach, DecodeEach, NormalEach;
    EachRoundTrip(f.inputs, values);
  }

  // ----- Encoding a decoded entry -----

  /** Byte chains and dictionaries in the cells of the entry are written canonically, at every depth. */
  predicate CanonicalEntry(ty: AbiType, entry: StackEntry)
    requires StackDecode(ty, entry).Ok?
    decreases ty, 0
  {
    match ty
    case TBytes => CanonicalSnake(entry.cell)
    case TString => CanonicalSnake(entry.cell)
    case TTuple(fields) => CanonicalEach(fields, entry.entries)
    case TArray(item) => CanonicalAll(item, entry.entries)
    case TOptional(item) => !entry.ENull? ==> CanonicalEntry(item, entry)
    case TMap(key, valueTy, keyBits) => CanonicalMap(key, valueTy, keyBits, entry.cell)
    case _ => true
  }

  predicate CanonicalEach(fields: seq<AbiParameter>, entries: seq<StackEntry>)
    requires |fields| == |entries| && DecodeEach(fields, entries).Ok?
    decreases fields, 0
  {
    fields == [] || (CanonicalEntry(fields[0].ty, entries[0]) && CanonicalEach(fields[1..], entries[1..]))
  }

  predicate CanonicalAll(item: AbiType, entries: seq<StackEntry>)
    requires DecodeAll(item, entries).Ok?
    decreases item, 1, |entries|
  {
    entries == [] || (CanonicalEntry(item, entries[0]) && CanonicalAll(item, entries[1..]))
  }

  lemma AddressSliceIsLossless(cell: Cell)
    requires DecodeAddressSlice(cell).Ok?
    ensures AddressCell(DecodeAddressSlice(cell).value) == cell
    ensures NormalAddress(DecodeAddressSlice(cell).value) == DecodeAddressSlice(cell).value
  {
    hide MsgAddressLoad, IntLayout;
    MsgAddressIsLossless(Contents(cell));
    ThenEmpty(StdLayout(DecodeAddressSlice(cell).value));
    assert Contents(cell).ToCell() == cell;
  }

  /** The law, for one accepted entry. */
  ghost predicate EntryReencodes(ty: AbiType, entry: StackEntry)
    requires StackDecode(ty, entry).Ok?
  {
    var v := StackDecode(ty, entry).value;
    && StackEncode(v, ty).Ok?
    && (StackEncode(v, ty).value == entry <==> CanonicalEntry(ty, entry))
    && StackNormal(ty, v) == v
    && (v == VOptional(None) ==> entry == ENull)
  }

  /**
   * Every accepted entry holds an encodable value in normal form; encoding it again gives the same entry exactly when
   * the byte chains and dictionaries in its cells were written canonically.
   */
  lemma {:induction false} ReencodedEntry(ty: AbiType, entry: StackEntry)
    requires StackDecode(ty, entry).Ok?
    ensures EntryReencodes(ty, entry)
    decreases ty, 0
  {
    match ty
    case TBytes => ReencodedBytesEntry(ty, entry);
    case TString => ReencodedBytesEntry(ty, entry);
    case TAddress => ReencodedAddressEntry(entry);
    case TTuple(fields) => ReencodedTupleEntry(fields, entry);
    case TArray(item) => ReencodedListEntry(item, entry);
    case TOptional(item) => ReencodedOptionalEntry(item, entry);
    case TMap(key, valueTy, keyBits) => ReencodedMapEntry(key, valueTy, keyBits, entry);
    case TUnknown(_) => assert false;
    case _ => ReencodedPlainEntry(ty, entry);
  }

  lemma ReencodedPlainEntry(ty: AbiType, entry: StackEntry)
    requires (ty.TInt? || ty.TUint? || ty.TBool? || ty.TCell? || ty.TSlice?) && StackDecode(ty, entry).Ok?
    ensures EntryReencodes(ty, entry)
  {
    hide SignedFits, UnsignedFits;
  }

  lemma ReencodedBytesEntry(ty: AbiType, entry: StackEntry)
    requires (ty.TBytes? || ty.TString?) && StackDecode(ty, entry).Ok?
    ensures EntryReencodes(ty, entry)
  {
    hide SnakeCell, ReadSnake, CanonicalSnake;
    ReencodedSnake(entry.cell);
  }

  lemma ReencodedAddressEntry(entry: StackEntry)
    requires StackDecode(TAddress, entry).Ok?
    ensures EntryReencodes(TAddress, entry)
  {
    hide AddressCell, DecodeAddressSlice;
    AddressSliceIsLossless(entry.cell);
  }

  lemma ReencodedMapEntry(key: AbiType, valueTy: AbiType, keyBits: Option<u16>, entry: StackEntry)
    requires StackDecode(TMap(key, valueTy, keyBits), entry).Ok?
    ensures EntryReencodes(TMap(key, valueTy, keyBits), entry)
  {
    hide EncodeMap, DecodeMap, MapLayout, CanonicalMap, NormalEntries;
    var entries := DecodeMap(key, valueTy, keyBits, entry.cell).value;
    ReencodedMap(key, valueTy, keyBits, entry.cell);
    EncodeMapIsLayout(key, valueTy, keyBits, entries);
  }

  lemma ReencodedTupleEntry(fields: seq<AbiParameter>, entry: StackEntry)
    requires StackDecode(TTuple(fields), entry).Ok?
    ensures EntryReencodes(TTuple(fields), entry)
    decreases fields, 1
  {
    hide EncodeEach, DecodeEach, NormalEach, CanonicalEach;
    ReencodedEach(fields, entry.entries);
  }

  lemma ReencodedListEntry(item: AbiType, entry: StackEntry)
    requires StackDecode(TArray(item), entry).Ok?
    ensures EntryReencodes(TArray(item), entry)
    decreases item, 2
  {
    hide EncodeAll, DecodeAll, NormalAll, CanonicalAll;
    ReencodedAll(item, entry.entries);
  }

  lemma ReencodedOptionalEntry(item: AbiType, entry: StackEntry)
    requires StackDecode(TOptional(item), entry).Ok?
    ensures EntryReencodes(TOptional(item), entry)
    decreases item, 1
  {
    hide StackEncode, StackDecode, StackNormal, CanonicalEntry;
    if entry.ENull? {
      AbsentEntry(item);
    } else {
      PresentEntry(item, entry);
      ReencodedEntry(item, entry);
      PresentValue(item, StackDecode(item, entry).value);
    }
  }

  lemma AbsentEntry(item: AbiType)
    ensures StackDecode(TOptional(item), ENull) == Ok(VOptional(None)) && CanonicalEntry(TOptional(item), ENull)
    ensures StackEncode(VOptional(None), TOptional(item)) == Ok(ENull)
    ensures StackNormal(TOptional(item), VOptional(None)) == VOptional(None)
  {
  }

  lemma PresentEntry(item: AbiType, entry: StackEntry)
    requires !entry.ENull? && StackDecode(TOptional(item), entry).Ok?
    ensures StackDecode(item, entry).Ok?
    ensures StackDecode(TOptional(item), entry).value == VOptional(Some(StackDecode(item, entry).value))
    ensures CanonicalEntry(TOptional(item), entry) == CanonicalEntry(item, entry)
  {
    hide StackEncode, StackNormal;
  }

  lemma PresentValue(item: AbiType, v: AbiValue)
    ensures StackEncode(VOptional(Some(v)), TOptional(item)) == StackEncode(v, item)
    ensures StackNormal(item, v) == v && v != VOptional(None) ==>
      StackNormal(TOptional(item), VOptional(Some(v))) == VOptional(Some(v))
  {
    hide StackDecode, CanonicalEntry, EncodeEach, EncodeAll, EncodeMap, NormalEach, NormalAll, NormalEntries, SnakeCell,
      AddressCell, ValidateWidth, EnsureSignedRange, EnsureUnsignedRange;
  }

  lemma {:induction false} ReencodedEach(fields: seq<AbiParameter>, entries: seq<StackEntry>)
    requires |fields| == |entries| && DecodeEach(fields, entries).Ok?
    ensures var vs := DecodeEach(fields, entries).value;
      && EncodeEach(fields, vs).Ok?
      && (EncodeEach(fields, vs).value == entries <==> CanonicalEach(fields, entries))
      && NormalEach(fields, vs) == vs
    decreases fields, 0
  {
    hide StackEncode, StackDecode, StackNormal, CanonicalEntry;
    if fields != [] {
      ReencodedEntry(fields[0].ty, entries[0]);
      ReencodedEach(fields[1..], entries[1..]);
      var v, vs := StackDecode(fields[0].ty, entries[0]).value, DecodeEach(fields[1..], entries[1..]).value;
      assert DecodeEach(fields, entries).value == [v] + vs && ([v] + vs)[1..] == vs;
      SameParts(StackEncode(v, fields[0].ty).value, EncodeEach(fields[1..], vs).value, entries);
    }
  }

  lemma {:induction false} ReencodedAll(item: AbiType, entries: seq<StackEntry>)
    requires DecodeAll(item, entries).Ok?
    ensures var vs := DecodeAll(item, entries).value;
      && EncodeAll(item, vs).Ok?
      && (EncodeAll(item, vs).value == entries <==> CanonicalAll(item, entries))
      && NormalAll(item, vs) == vs
    decreases item, 1, |entries|
  {
    hide StackEncode, StackDecode, StackNormal, CanonicalEntry;
    if entries != [] {
      ReencodedEntry(item, entries[0]);
      ReencodedAll(item, entries[1..]);
      var v, vs := StackDecode(item, entries[0]).value, DecodeAll(item, entries[1..]).value;
      assert DecodeAll(item, entries).value == [v] + vs && ([v] + vs)[1..] == vs;
      SameParts(StackEncode(v, item).value, EncodeAll(item, vs).value, entries);
    }
  }

  lemma SameParts(first: StackEntry, rest: seq<StackEntry>, entries: seq<StackEntry>)
    requires entries != []
    ensures [first] + rest == entries <==> first == entries[0] && rest == entries[1..]
  {
    assert entries == [entries[0]] + entries[1..];
    assert ([first] + rest)[1..] == rest;
  }

  // ----- Types whose every entry is canonical -----

  /** No byte chain and no map anywhere inside. */
  predicate FixedEntry(ty: AbiType)
    decreases ty, 0
  {
    match ty
    case TBytes => false
    case TString => false
    case TMap(_, _, _) => false
    case TTuple(fields) => FixedEntries(fields)
    case TArray(item) => FixedEntry(item)
    case TOptional(item) => FixedEntry(item)
    case _ => true
  }

  predicate FixedEntries(fields: seq<AbiParameter>)
    decreases fields, 0
  {
    fields == [] || (FixedEntry(fields[0].ty) && FixedEntries(fields[1..]))
  }

  lemma {:induction false} FixedEntryIsCanonical(ty: AbiType, entry: StackEntry)
    requires StackDecode(ty, entry).Ok? && FixedEntry(ty)
    ensures CanonicalEntry(ty, entry)
    decreases ty, 0
  {
    match ty
    case TTuple(fields) => FixedEachIsCanonical(fields, entry.entries);
    case TArray(item) => FixedAllIsCanonical(item, entry.entries);
    case TOptional(item) =>
      if !entry.ENull? {
        FixedEntryIsCanonical(item, entry);
      }
    case _ =>
  }

  lemma {:induction false} FixedEachIsCanonical(fields: seq<AbiParameter>, entries: seq<StackEntry>)
    requires |fields| == |entries| && DecodeEach(fields, entries).Ok? && FixedEntries(fields)
    ensures CanonicalEach(fields, entries)
    decreases fields, 0
  {
    hide StackDecode, CanonicalEntry, FixedEntry;
    if fields != [] {
      FixedEntryIsCanonical(fields[0].ty, entries[0]);
      FixedEachIsCanonical(fields[1..], entries[1..]);
    }
  }

  lemma {:induction false} FixedAllIsCanonical(item: AbiType, entries: seq<StackEntry>)
    requires DecodeAll(item, entries).Ok? && FixedEntry(item)
    ensures CanonicalAll(item, entries)
    decreases item, 1, |entries|
  {
    hide StackDecode, CanonicalEntry, FixedEntry;
    if entries != [] {
      FixedEntryIsCanonical(item, entries[0]);
      FixedAllIsCanonical(item, entries[1..]);
    }
  }

  /** For such types decoding then encoding gives the same entry. */
  lemma FixedEntryIsLossless(ty: AbiType, entry: StackEntry)
    requires StackDecode(ty, entry).Ok? && FixedEntry(ty)
    ensures StackEncode(StackDecode(ty, entry).value, ty) == Ok(entry)
  {
    hide StackEncode, StackDecode, StackNormal, CanonicalEntry, FixedEntry;
    ReencodedEntry(ty, entry);
    FixedEntryIsCanonical(ty, entry);
  }
}
