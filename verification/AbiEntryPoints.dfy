/**
 * The entry points of the ABI codec in full (src/abi/codec.rs, src/abi/model.rs): which functions and events they
 * accept, when they succeed, which cells and stacks they read, and what they answer otherwise.
 */
module AbiEntryPoints {
  import opened AbiCodec
  import opened AbiEncodable
  import opened AbiLayout
  import opened AbiMaps
  import opened AbiMessages
  import opened AbiModel
  import opened AbiStack
  import opened AbiWires
  import opened Bits
  import opened Cells
  import opened Dictionary
  import opened SortedMap
  import opened StackWires
  import opened Wrappers

  // ----- Bodies -----

  /** The selector's bits and then the values, filling the whole cell. */
  ghost predicate IsBody(selector: AbiSelector, fields: seq<AbiParameter>, body: Cell, values: seq<AbiValue>) {
    match selector
    case Opcode(op) =>
      && |body.bits| >= 32 && body.bits[..32] == ToBits(op, 32)
      && FieldsSpelled(fields, Chunk(body.bits[32..], body.refs), values, EMPTY)
    case NoSelector => FieldsSpelled(fields, Chunk(body.bits, body.refs), values, EMPTY)
    case MethodId(_) => false
  }

  function SelectorBits(selector: AbiSelector): nat {
    match selector
    case Opcode(_) => 32
    case NoSelector => 0
    case MethodId(_) => 0
  }

  /** As many values as parameters, each encodable, and all of them within one cell after the selector. */
  predicate BodyEncodes(selector: AbiSelector, fields: seq<AbiParameter>, values: seq<AbiValue>) {
    && |fields| == |values|
    && (forall i :: 0 <= i < |fields| ==> Encodable(fields[i].ty, values[i]))
    && SelectorBits(selector) + FieldsWidth(fields, values) <= 1023
    && FieldsRefCount(fields, values) <= 4
  }

  lemma EncodesWithIff(selector: AbiSelector, fields: seq<AbiParameter>, values: seq<AbiValue>)
    ensures EncodeWith(selector, fields, values).Ok? <==> BodyEncodes(selector, fields, values)
  {
    hide EncodeWith, FieldsLayout, FieldsWidth, FieldsRefCount, ToBits, Encodable, Layout;
    EncodeWithIsLayout(selector, fields, values);
    if |fields| == |values| {
      FieldsLayoutIff(fields, values);
      forall i | 0 <= i < |fields|
        ensures Layout(fields[i].ty, values[i]).Some? <==> Encodable(fields[i].ty, values[i])
      {
        LayoutIffEncodable(fields[i].ty, values[i]);
      }
      if FieldsLayout(fields, values).Some? {
        FieldsLayoutSize(fields, values);
      }
    }
  }

  lemma DecodesWithIff(selector: AbiSelector, fields: seq<AbiParameter>, body: Cell, values: seq<AbiValue>)
    requires !selector.MethodId?
    ensures DecodeWith(selector, fields, body) == Ok(values) <==> IsBody(selector, fields, body, values)
  {
    hide LoadFields, FieldsSpelled, ToBits, FromBits, Pow2;
    var afterSelector := LoadSelector(Contents(body), selector);
    if afterSelector.Ok? {
      var loaded := LoadFields(afterSelector.value, fields);
      if loaded.Ok? {
        assert loaded.value == (loaded.value.0, loaded.value.1);
      }
      FieldsLoadIff(fields, afterSelector.value, values, EMPTY);
    }
    if selector.Opcode? && |body.bits| >= 32 {
      Pow2ThirtyTwo();
      FromToBits(selector.opcode, 32);
      ToFromBits(body.bits[..32]);
    }
  }

  /** Messages carry an opcode or no selector, and only message functions have them. */
  predicate HasMessages(f: AbiFunction) {
    f.kind in {InternalMessage, ExternalMessage} && (f.selector == NoSelector || f.selector.Opcode?)
  }

  /** A message encodes, and a cell decodes as it, under these conditions and no others. */
  lemma MessageEncodesIff(f: AbiFunction, values: seq<AbiValue>)
    ensures EncodeMessageBody(f, values).Ok? <==> HasMessages(f) && BodyEncodes(f.selector, f.inputs, values)
    ensures !HasMessages(f) ==> EncodeMessageBody(f, values) == Err(InvalidMessageSelector)
  {
    hide EncodeWith, BodyEncodes;
    EncodesWithIff(f.selector, f.inputs, values);
  }

  lemma MessageDecodesIff(f: AbiFunction, body: Cell, values: seq<AbiValue>)
    ensures DecodeMessageBody(f, body) == Ok(values) <==> HasMessages(f) && IsBody(f.selector, f.inputs, body, values)
    ensures !HasMessages(f) ==> DecodeMessageBody(f, body) == Err(InvalidMessageSelector)
  {
    hide DecodeWith, IsBody;
    if HasMessages(f) {
      DecodesWithIff(f.selector, f.inputs, body, values);
    }
  }

  /** Events carry an opcode or no selector. */
  lemma EventEncodesIff(e: AbiEvent, values: seq<AbiValue>)
    ensures EncodeEventPayload(e, values).Ok? <==>
      (e.selector == NoSelector || e.selector.Opcode?) && BodyEncodes(e.selector, e.fields, values)
    ensures e.selector.MethodId? ==> EncodeEventPayload(e, values) == Err(InvalidEventSelector)
  {
    hide EncodeWith, BodyEncodes;
    EncodesWithIff(e.selector, e.fields, values);
  }

  lemma EventDecodesIff(e: AbiEvent, payload: Cell, values: seq<AbiValue>)
    ensures DecodeEventPayload(e, payload) == Ok(values) <==>
      (e.selector == NoSelector || e.selector.Opcode?) && IsBody(e.selector, e.fields, payload, values)
    ensures e.selector.MethodId? ==> DecodeEventPayload(e, payload) == Err(InvalidEventSelector)
  {
    hide DecodeWith, IsBody;
    if !e.selector.MethodId? {
      DecodesWithIff(e.selector, e.fields, payload, values);
    }
  }

  // ----- Get-methods -----

  /** Get-methods are selected by a number or by nothing. */
  predicate IsGetMethod(f: AbiFunction) {
    f.kind == GetMethod && (f.selector == NoSelector || f.selector.MethodId?)
  }

  lemma InputsEncodeIff(f: AbiFunction, values: seq<AbiValue>)
    ensures EncodeGetMethodInputs(f, values).Ok? <==>
      && IsGetMethod(f) && |f.inputs| == |values|
      && forall i :: 0 <= i < |values| ==> Stackable(f.inputs[i].ty, values[i])
    ensures !IsGetMethod(f) ==> EncodeGetMethodInputs(f, values) == Err(InvalidGetMethodSelector)
    ensures IsGetMethod(f) && |f.inputs| != |values| ==>
      EncodeGetMethodInputs(f, values) == Err(ArityMismatch(|f.inputs|, |values|))
  {
    hide EncodeEach, Stackable;
    if |f.inputs| == |values| {
      EachEncodesIff(f.inputs, values);
    }
  }

  lemma OutputsDecodeIff(f: AbiFunction, entries: seq<StackEntry>, values: seq<AbiValue>)
    ensures DecodeGetMethodOutputs(f, entries) == Ok(values) <==>
      IsGetMethod(f) && EachShown(f.outputs, entries, values)
    ensures !IsGetMethod(f) ==> DecodeGetMethodOutputs(f, entries) == Err(InvalidGetMethodSelector)
    ensures IsGetMethod(f) && |f.outputs| != |entries| ==>
      DecodeGetMethodOutputs(f, entries) == Err(ArityMismatch(|f.outputs|, |entries|))
  {
    hide DecodeEach, EachShown;
    EachDecodesIff(f.outputs, entries, values);
    LengthsShown(f.outputs, entries, values);
  }

  // ----- Refusals -----

  /** The wrong number of values, whatever they are. */
  lemma ArityRefused(selector: AbiSelector, fields: seq<AbiParameter>, values: seq<AbiValue>)
    requires |fields| != |values|
    ensures EncodeWith(selector, fields, values) == Err(ArityMismatch(|fields|, |values|))
  {
    hide ToBits;
  }

  /** Too short for the opcode, another opcode, or more than the values. */
  lemma BodyRefused(selector: AbiSelector, fields: seq<AbiParameter>, body: Cell)
    ensures selector.Opcode? && |body.bits| < 32 ==> DecodeWith(selector, fields, body) == Err(MalformedBody)
    ensures selector.Opcode? && |body.bits| >= 32 && FromBits(body.bits[..32]) != selector.opcode ==>
      && FromBits(body.bits[..32]) < 0x1_0000_0000
      && DecodeWith(selector, fields, body) == Err(OpcodeMismatch(selector.opcode, FromBits(body.bits[..32])))
    ensures forall values, rest: Chunk ::
      rest != EMPTY && selector == NoSelector && FieldsSpelled(fields, Chunk(body.bits, body.refs), values, rest) ==>
        DecodeWith(selector, fields, body) == Err(TrailingBodyData(|rest.bits|, |rest.refs|))
    ensures forall values, rest: Chunk ::
      && rest != EMPTY && selector.Opcode? && |body.bits| >= 32 && FromBits(body.bits[..32]) == selector.opcode
      && FieldsSpelled(fields, Chunk(body.bits[32..], body.refs), values, rest) ==>
        DecodeWith(selector, fields, body) == Err(TrailingBodyData(|rest.bits|, |rest.refs|))
  {
    hide LoadFields, FieldsSpelled, FromBits, Pow2;
    if selector.Opcode? && |body.bits| >= 32 {
      FromBitsBound(body.bits[..32]);
      Pow2ThirtyTwo();
    }
    forall values, rest: Chunk, c: Chunk | FieldsSpelled(fields, c, values, rest)
      ensures LoadFields(c, fields) == Ok((values, rest))
    {
      FieldsLoadIff(fields, c, values, rest);
    }
  }

  /** No room is always a malformed body: whatever is encodable fails in no other way. */
  lemma {:induction false} OverflowIsMalformed(st: Chunk, ty: AbiType, value: AbiValue)
    requires st.Fits() && Encodable(ty, value) && StoreBody(st, ty, value).Err?
    ensures StoreBody(st, ty, value) == Err(MalformedBody)
    decreases ty, 0
  {
    hide ToBits, EncodeMap, EncodableKeys, EncodableValues, Pow2;
    match (ty, value)
    case (TTuple(fields), VTuple(values)) => FieldsOverflow(st, fields, values);
    case (TOptional(item), VOptional(Some(v))) =>
      if st.Then(OfBits([true])).Fits() {
        OverflowIsMalformed(st.Then(OfBits([true])), item, v);
      }
    case (TMap(key, valueTy, keyBits), VMap(entries)) => MapEncodesIff(key, valueTy, keyBits, entries);
    case _ =>
  }

  lemma {:induction false} FieldsOverflow(st: Chunk, fields: seq<AbiParameter>, values: seq<AbiValue>)
    requires st.Fits() && |fields| == |values| && StoreFields(st, fields, values).Err?
    requires forall i :: 0 <= i < |fields| ==> Encodable(fields[i].ty, values[i])
    ensures StoreFields(st, fields, values) == Err(MalformedBody)
    decreases fields, 0
  {
    hide StoreBody, Encodable, Layout;
    if fields != [] {
      var stored := StoreBody(st, fields[0].ty, values[0]);
      if stored.Err? {
        OverflowIsMalformed(st, fields[0].ty, values[0]);
      } else {
        StoreBodyIsLayout(st, fields[0].ty, values[0]);
        forall i | 0 <= i < |fields[1..]| ensures Encodable(fields[1..][i].ty, values[1..][i]) {
          assert fields[1..][i] == fields[i + 1] && values[1..][i] == values[i + 1];
        }
        FieldsOverflow(stored.value, fields[1..], values[1..]);
      }
    }
  }

  /** The key type decides first, then the width of the key, then the stated width. */
  lemma MapKeyRefusals(key: AbiType, valueTy: AbiType, keyBits: Option<u16>, entries: seq<MapEntry>, cell: Cell)
    ensures var refused := if !key.TInt? && !key.TUint? then Some(UnsupportedMapKey)
      else if !(1 <= key.bits <= 257) then Some(InvalidIntegerWidth(key.bits))
      else if keyBits.Some? && !(1 <= keyBits.value <= 257) then Some(InvalidIntegerWidth(keyBits.value))
      else if keyBits.Some? && keyBits.value != key.bits then Some(InvalidMapKeyBits(key.bits, keyBits.value))
      else None;
      refused.Some? ==>
        && EncodeMap(key, valueTy, keyBits, entries) == Err(refused.value)
        && DecodeMap(key, valueTy, keyBits, cell) == Err(refused.value)
  {
    hide EncodeEntries, DecodeEntries, CellDict, DictCell;
  }

  // ----- Repeated keys -----

  /** Item `j` is the first whose key is in `d` or among the items before it. */
  ghost predicate FirstRepeat(d: Dict, items: Dict, j: nat) {
    && j < |items|
    && (forall m :: 0 <= m < j ==> !Contains(d, items[m].key))
    && (forall i, m :: 0 <= i < m < j ==> items[i].key != items[m].key)
    && (Contains(d, items[j].key) || exists i :: 0 <= i < j && items[i].key == items[j].key)
  }

  lemma {:induction false} RepeatIsNamed(
    key: AbiType, valueTy: AbiType, keyBits: u16, entries: seq<MapEntry>, d: Dict, j: nat)
    requires Items(key, valueTy, keyBits, entries).Some?
    requires FirstRepeat(d, Items(key, valueTy, keyBits, entries).value, j)
    ensures EncodeEntries(key, valueTy, keyBits, entries, d)
         == Err(DuplicateMapKey(Items(key, valueTy, keyBits, entries).value[j].key))
  {
    hide KeyToBits, EncodeValueCell, ValueLayout, Insert, Contains;
    var items := Items(key, valueTy, keyBits, entries).value;
    ValueCellIsLayout(valueTy, entries[0].value);
    if j > 0 {
      var later := Items(key, valueTy, keyBits, entries[1..]).value;
      assert items == [items[0]] + later;
      var d' := Insert(d, items[0].key, items[0].value);
      InsertKeys(d, items[0].key, items[0].value);
      LaterRepeat(d, d', items, j);
      assert items[1..] == later;
      RepeatIsNamed(key, valueTy, keyBits, entries[1..], d', j - 1);
    }
  }

  lemma LaterRepeat(d: Dict, d': Dict, items: Dict, j: nat)
    requires j > 0 && FirstRepeat(d, items, j)
    requires forall k :: Contains(d', k) <==> k == items[0].key || Contains(d, k)
    ensures FirstRepeat(d', items[1..], j - 1)
  {
    hide Contains;
    var later := items[1..];
    assert forall m :: 0 <= m < |later| ==> later[m] == items[m + 1];
    if i :| 0 <= i < j && items[i].key == items[j].key {
      assert i > 0 ==> later[i - 1] == items[i];
    }
  }

  /** When every entry encodes, the error names the key bits of the first entry whose key was there before. */
  lemma DuplicateIsNamed(
    key: AbiType, valueTy: AbiType, keyBits: Option<u16>, entries: seq<MapEntry>, i: nat, j: nat, bits: seq<bool>)
    requires (key.TInt? || key.TUint?) && 1 <= key.bits <= 257 && (keyBits.Some? ==> keyBits.value == key.bits)
    requires (forall m :: 0 <= m < |entries| ==> EncodableKey(key, entries[m].key)) && EncodableValues(valueTy, entries)
    requires i < j < |entries| && entries[i].key == entries[j].key && KeySpelled(key, bits, entries[j].key)
    requires forall a, b :: 0 <= a < b < j ==> entries[a].key != entries[b].key
    ensures EncodeMap(key, valueTy, keyBits, entries) == Err(DuplicateMapKey(bits))
  {
    hide KeyToBits, EncodableKey, EncodableValues, EncodeEntries, Items, KeySpelled, ValueLayout, Contains;
    MapKeyBitsIff(key, keyBits);
    forall m | 0 <= m < |entries| ensures KeyToBits(key, entries[m].key, key.bits).Ok? {
      KeyIff(key, entries[m].key);
    }
    ValuesIff(valueTy, entries);
    ItemsIff(key, valueTy, key.bits, entries);
    ItemsAt(key, valueTy, key.bits, entries);
    var items := Items(key, valueTy, key.bits, entries).value;
    forall a, b | 0 <= a < b < j ensures items[a].key != items[b].key {
      KeysDiffer(key, entries[a].key, entries[b].key, key.bits);
    }
    KeysDiffer(key, entries[i].key, entries[j].key, key.bits);
    SpelledKey(key, bits, entries[j].key);
    assert forall m :: 0 <= m < j ==> !Contains<Cell>([], items[m].key) by {
      NothingContained();
    }
    RepeatIsNamed(key, valueTy, key.bits, entries, [], j);
  }

  lemma NothingContained()
    ensures forall k: seq<bool> :: !Contains<Cell>([], k)
  {
  }

  lemma SpelledKey(key: AbiType, bits: seq<bool>, value: AbiValue)
    requires (key.TInt? || key.TUint?) && KeySpelled(key, bits, value)
    ensures KeyToBits(key, value, key.bits) == Ok(bits)
  {
    hide ToBits;
  }
}
