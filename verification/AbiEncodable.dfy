/**
 * Which ABI values encode, in numbers alone: widths, ranges, equal arities, distinct keys, and room for each map value
 * (src/abi/codec.rs, src/abi/map.rs).
 */
module AbiEncodable {
  import opened AbiCodec
  import opened AbiLayout
  import opened AbiMaps
  import opened AbiModel
  import opened AbiRoundTrip
  import opened Bits
  import opened Cells
  import opened Dictionary
  import opened Snake
  import opened SortedMap
  import opened Wrappers

  predicate IsInt(value: int, bits: u16) {
    1 <= bits <= 257 && -(Pow2(bits - 1) as int) <= value < Pow2(bits - 1)
  }

  predicate IsUint(value: nat, bits: u16) {
    1 <= bits <= 257 && value < Pow2(bits)
  }

  predicate Encodable(ty: AbiType, value: AbiValue)
    decreases ty, 0
  {
    match (ty, value)
    case (TInt(bits), VInt(v)) => IsInt(v, bits)
    case (TUint(bits), VUint(v)) => IsUint(v, bits)
    case (TBool, VBool(_)) => true
    case (TBytes, VBytes(_)) => true
    case (TString, VString(_)) => true
    case (TAddress, VAddress(_)) => true
    case (TCell, VCell(_)) => true
    case (TSlice, VSlice(_)) => true
    case (TTuple(fields), VTuple(values)) =>
      |fields| == |values| && forall i :: 0 <= i < |fields| ==> Encodable(fields[i].ty, values[i])
    case (TOptional(item), VOptional(v)) => v.Some? ==> Encodable(item, v.value)
    case (TMap(key, valueTy, keyBits), VMap(entries)) =>
      EncodableKeys(key, keyBits, entries) && EncodableValues(valueTy, entries)
    case _ => false
  }

  /** Integer keys of the declared width, in range and no two alike. */
  predicate EncodableKeys(key: AbiType, keyBits: Option<u16>, entries: seq<MapEntry>) {
    && (key.TInt? || key.TUint?) && 1 <= key.bits <= 257
    && (keyBits.Some? ==> keyBits.value == key.bits)
    && (forall i :: 0 <= i < |entries| ==> EncodableKey(key, entries[i].key))
    && (forall i, j :: 0 <= i < j < |entries| ==> entries[i].key != entries[j].key)
  }

  predicate EncodableKey(key: AbiType, value: AbiValue) {
    match (key, value)
    case (TInt(bits), VInt(v)) => IsInt(v, bits)
    case (TUint(bits), VUint(v)) => IsUint(v, bits)
    case _ => false
  }

  /** Every value encodes and has room in a cell of its own. */
  predicate EncodableValues(valueTy: AbiType, entries: seq<MapEntry>)
    decreases valueTy, 1
  {
    forall i :: 0 <= i < |entries| ==>
      && Encodable(valueTy, entries[i].value)
      && Width(valueTy, entries[i].value) <= 1023 && RefCount(valueTy, entries[i].value) <= 4
  }

  // ----- A layout exists exactly for those values -----

  lemma {:induction false} LayoutIffEncodable(ty: AbiType, value: AbiValue)
    ensures Layout(ty, value).Some? <==> Encodable(ty, value)
    decreases ty, 0
  {
    hide SnakeCell, StdLayout, ToBits, SignedBits, MapLayout, EncodableKeys, EncodableValues;
    match (ty, value)
    case (TTuple(fields), VTuple(values)) =>
      if |fields| == |values| {
        FieldsLayoutIff(fields, values);
        forall i | 0 <= i < |fields|
          ensures Layout(fields[i].ty, values[i]).Some? <==> Encodable(fields[i].ty, values[i])
        {
          LayoutIffEncodable(fields[i].ty, values[i]);
        }
      }
    case (TOptional(item), VOptional(Some(v))) => LayoutIffEncodable(item, v);
    case (TMap(key, valueTy, keyBits), VMap(entries)) => MapIffEncodable(key, valueTy, keyBits, entries);
    case _ =>
  }

  lemma {:induction false} MapIffEncodable(key: AbiType, valueTy: AbiType, keyBits: Option<u16>, entries: seq<MapEntry>)
    ensures MapLayout(key, valueTy, keyBits, entries).Some?
       <==> EncodableKeys(key, keyBits, entries) && EncodableValues(valueTy, entries)
    decreases valueTy, 3
  {
    hide Items, KeyToBits, DictCell, InsertAll, EncodableValues;
    MapKeyBitsIff(key, keyBits);
    if MapKeyBits(key, keyBits).Ok? {
      ItemsIff(key, valueTy, key.bits, entries);
      var items := Items(key, valueTy, key.bits, entries);
      forall e | e in entries ensures KeyToBits(key, e.key, key.bits).Ok? <==> EncodableKey(key, e.key) {
        KeyIff(key, e.key);
      }
      forall i | 0 <= i < |entries|
        ensures KeyToBits(key, entries[i].key, key.bits).Ok? <==> EncodableKey(key, entries[i].key)
      {
        assert entries[i] in entries;
      }
      ValuesIff(valueTy, entries);
      if items.Some? {
        DistinctIffNoRepeat(key, valueTy, key.bits, entries);
        ItemLengths(key, valueTy, key.bits, entries);
        NothingOfLength(key.bits);
        InsertAllValid([], items.value, key.bits);
        DictCellSucceeds(InsertAll([], items.value), key.bits);
      }
    }
  }

  lemma MapKeyBitsIff(key: AbiType, keyBits: Option<u16>)
    ensures MapKeyBits(key, keyBits).Ok? <==>
      (key.TInt? || key.TUint?) && 1 <= key.bits <= 257 && (keyBits.Some? ==> keyBits.value == key.bits)
    ensures MapKeyBits(key, keyBits).Ok? ==> MapKeyBits(key, keyBits).value == key.bits
  {
  }

  lemma KeyIff(key: AbiType, value: AbiValue)
    requires key.TInt? || key.TUint?
    ensures KeyToBits(key, value, key.bits).Ok? <==> EncodableKey(key, value)
  {
    hide ToBits, SignedBits;
  }

  lemma {:induction false} ValuesIff(valueTy: AbiType, entries: seq<MapEntry>)
    ensures EncodableValues(valueTy, entries)
       <==> forall i :: 0 <= i < |entries| ==> ValueLayout(valueTy, entries[i].value).Some?
    decreases valueTy, 2
  {
    hide ValueLayout, Encodable, Width, RefCount;
    forall i | 0 <= i < |entries|
      ensures ValueLayout(valueTy, entries[i].value).Some? <==>
        && Encodable(valueTy, entries[i].value)
        && Width(valueTy, entries[i].value) <= 1023 && RefCount(valueTy, entries[i].value) <= 4
    {
      ValueIff(valueTy, entries[i].value);
    }
  }

  lemma {:induction false} ValueIff(valueTy: AbiType, value: AbiValue)
    ensures ValueLayout(valueTy, value).Some? <==>
      Encodable(valueTy, value) && Width(valueTy, value) <= 1023 && RefCount(valueTy, value) <= 4
    decreases valueTy, 1
  {
    hide Layout, Encodable, Width, RefCount;
    LayoutIffEncodable(valueTy, value);
    if Layout(valueTy, value).Some? {
      LayoutSize(valueTy, value);
    }
  }

  lemma {:induction false} ItemsIff(key: AbiType, valueTy: AbiType, keyBits: u16, entries: seq<MapEntry>)
    ensures Items(key, valueTy, keyBits, entries).Some? <==> forall i :: 0 <= i < |entries| ==>
      KeyToBits(key, entries[i].key, keyBits).Ok? && ValueLayout(valueTy, entries[i].value).Some?
  {
    hide KeyToBits, ValueLayout;
    if entries != [] {
      var rest := entries[1..];
      ItemsIff(key, valueTy, keyBits, rest);
      assert forall i :: 0 <= i < |rest| ==> rest[i] == entries[i + 1];
      assert forall i :: 0 < i < |entries| ==> entries[i] == rest[i - 1];
    }
  }

  // ----- The encoder -----

  /** A value is stored exactly when it is encodable and its width and references still fit. */
  lemma StoresIff(st: Chunk, ty: AbiType, value: AbiValue)
    requires st.Fits()
    ensures StoreBody(st, ty, value).Ok? <==>
      && Encodable(ty, value)
      && |st.bits| + Width(ty, value) <= 1023 && |st.refs| + RefCount(ty, value) <= 4
  {
    hide StoreBody, Layout, Encodable, Width, RefCount;
    StoreBodyIsLayout(st, ty, value);
    LayoutIffEncodable(ty, value);
    if Layout(ty, value).Some? {
      LayoutSize(ty, value);
    }
  }

  /** A list of parameters: each value encodable, and the widths and references together within one cell. */
  lemma FieldsStoreIff(fields: seq<AbiParameter>, values: seq<AbiValue>)
    requires |fields| == |values|
    ensures StoreFields(EMPTY, fields, values).Ok? <==>
      && (forall i :: 0 <= i < |fields| ==> Encodable(fields[i].ty, values[i]))
      && FieldsWidth(fields, values) <= 1023 && FieldsRefCount(fields, values) <= 4
  {
    hide StoreFields, Layout, Encodable, FieldsWidth, FieldsRefCount;
    CapacityIff(fields, values);
    forall i | 0 <= i < |fields| ensures Layout(fields[i].ty, values[i]).Some? <==> Encodable(fields[i].ty, values[i]) {
      LayoutIffEncodable(fields[i].ty, values[i]);
    }
  }

  lemma MapEncodesIff(key: AbiType, valueTy: AbiType, keyBits: Option<u16>, entries: seq<MapEntry>)
    ensures EncodeMap(key, valueTy, keyBits, entries).Ok?
       <==> EncodableKeys(key, keyBits, entries) && EncodableValues(valueTy, entries)
  {
    hide EncodeMap, MapLayout, EncodableKeys, EncodableValues;
    EncodeMapIsLayout(key, valueTy, keyBits, entries);
    MapIffEncodable(key, valueTy, keyBits, entries);
  }
}
