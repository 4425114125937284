/**
 * What an ABI value occupies in a body, said without a builder: the concatenation of its parts.
 * The step-by-step encoder succeeds exactly when the layout exists and fits.
 */
module AbiLayout {
  import opened AbiCodec
  import opened AbiModel
  import opened Addresses
  import opened Bits
  import opened Cells
  import opened Dictionary
  import opened Snake
  import opened SortedMap
  import opened Wrappers

  // ----- Definition -----

  function Layout(ty: AbiType, value: AbiValue): Option<Chunk>
    decreases ty, 0
  {
    match (ty, value)
    case (TInt(bits), VInt(v)) =>
      if WidthOk(bits) && SignedFits(v, bits) then Some(OfBits(SignedBits(v, bits))) else None
    case (TUint(bits), VUint(v)) =>
      if WidthOk(bits) && UnsignedFits(v, bits) then Some(OfBits(ToBits(v, bits))) else None
    case (TBool, VBool(v)) => Some(OfBits([v]))
    case (TBytes, VBytes(bytes)) => Some(OfRef(SnakeCell(bytes)))
    case (TString, VString(utf8)) => Some(OfRef(SnakeCell(utf8)))
    case (TAddress, VAddress(address)) => Some(StdLayout(address))
    case (TCell, VCell(cell)) => Some(OfRef(cell))
    case (TSlice, VSlice(cell)) => Some(OfRef(cell))
    case (TTuple(fields), VTuple(values)) =>
      if |fields| == |values| then FieldsLayout(fields, values) else None
    case (TOptional(_), VOptional(None)) => Some(OfBits([false]))
    case (TOptional(item), VOptional(Some(v))) =>
      var chunk :- Layout(item, v);
      Some(OfBits([true]).Then(chunk))
    case (TMap(key, valueTy, keyBits), VMap(entries)) =>
      var cell :- MapLayout(key, valueTy, keyBits, entries);
      Some(OfRef(cell))
    case _ => None
  }

  function FieldsLayout(fields: seq<AbiParameter>, values: seq<AbiValue>): Option<Chunk>
    requires |fields| == |values|
    decreases fields, 0
  {
    if fields == [] then Some(EMPTY)
    else
      var first :- Layout(fields[0].ty, values[0]);
      var rest :- FieldsLayout(fields[1..], values[1..]);
      Some(first.Then(rest))
  }

  /** The cell of one map value. */
  function ValueLayout(valueTy: AbiType, value: AbiValue): Option<Cell>
    decreases valueTy, 1
  {
    var chunk :- Layout(valueTy, value);
    if chunk.Fits() then Some(chunk.ToCell()) else None
  }

  /** Each entry on its own, in the order given. */
  function Items(keyTy: AbiType, valueTy: AbiType, keyBits: u16, entries: seq<MapEntry>): Option<Dict>
    decreases valueTy, 2, |entries|
  {
    if entries == [] then Some([])
    else
      var key := KeyToBits(keyTy, entries[0].key, keyBits);
      var cell :- ValueLayout(valueTy, entries[0].value);
      var rest :- Items(keyTy, valueTy, keyBits, entries[1..]);
      if key.Ok? then Some([Item(key.value, cell)] + rest) else None
  }

  predicate DistinctKeys<V>(items: seq<Item<V>>) {
    forall i, j :: 0 <= i < j < |items| ==> items[i].key != items[j].key
  }

  function InsertAll<V>(d: seq<Item<V>>, items: seq<Item<V>>): seq<Item<V>>
    decreases items
  {
    if items == [] then d else InsertAll(Insert(d, items[0].key, items[0].value), items[1..])
  }

  function Sorted<V>(items: seq<Item<V>>): seq<Item<V>> {
    InsertAll([], items)
  }

  /** A map is its entries sorted by key, in the canonical dictionary tree. */
  function MapLayout(keyTy: AbiType, valueTy: AbiType, explicitBits: Option<u16>, entries: seq<MapEntry>): Option<Cell>
    decreases valueTy, 3
  {
    match MapKeyBits(keyTy, explicitBits)
    case Err(_) => None
    case Ok(keyBits) =>
      var items :- Items(keyTy, valueTy, keyBits, entries);
      if !DistinctKeys(items) then None
      else match DictCell(Sorted(items), keyBits)
        case Ok(cell) => Some(cell)
        case Err(_) => None
  }

  // ----- The dictionary that insertion builds -----

  ghost predicate Disjoint<V>(d: seq<Item<V>>, items: seq<Item<V>>) {
    forall i :: 0 <= i < |items| ==> !Contains(d, items[i].key)
  }

  lemma {:induction false} InsertAllValid(d: Dict, items: Dict, keyBits: nat)
    requires ValidDict(d, keyBits) && KeysOfLength(items, keyBits)
    ensures ValidDict(InsertAll(d, items), keyBits)
    decreases items
  {
    if items != [] {
      InsertAscending(d, items[0].key, items[0].value);
      InsertLengths(d, items[0].key, items[0].value, keyBits);
      InsertAllValid(Insert(d, items[0].key, items[0].value), items[1..], keyBits);
    }
  }

  lemma InsertLengths(d: Dict, key: seq<bool>, value: Cell, keyBits: nat)
    requires KeysOfLength(d, keyBits) && |key| == keyBits
    ensures KeysOfLength(Insert(d, key, value), keyBits)
  {
    var r := Insert(d, key, value);
    InsertKeys(d, key, value);
    forall i | 0 <= i < |r| ensures |r[i].key| == keyBits {
      assert Contains(r, r[i].key);
    }
  }

  lemma {:induction false} ItemLengths(keyTy: AbiType, valueTy: AbiType, keyBits: u16, entries: seq<MapEntry>)
    requires Items(keyTy, valueTy, keyBits, entries).Some?
    ensures KeysOfLength(Items(keyTy, valueTy, keyBits, entries).value, keyBits)
    ensures |Items(keyTy, valueTy, keyBits, entries).value| == |entries|
  {
    hide KeyToBits, ValueLayout;
    if entries != [] {
      ItemLengths(keyTy, valueTy, keyBits, entries[1..]);
    }
  }

  /** A dictionary of ABI-sized keys always fits its cells. */
  lemma DictCellSucceeds(d: Dict, keyBits: u16)
    requires ValidDict(d, keyBits) && WidthOk(keyBits)
    ensures DictCell(d, keyBits).Ok?
  {
    hide StoreDict;
    StoreDictSucceeds(d, keyBits);
  }

  // ----- The encoder computes the layout -----

  lemma {:induction false} StoreBodyIsLayout(st: Chunk, ty: AbiType, value: AbiValue)
    requires st.Fits()
    ensures StoreBody(st, ty, value).Ok? <==> Layout(ty, value).Some? && st.Then(Layout(ty, value).value).Fits()
    ensures StoreBody(st, ty, value).Ok? ==> StoreBody(st, ty, value).value == st.Then(Layout(ty, value).value)
    decreases ty, 0
  {
    hide ToBits, SignedBits, SnakeCell, StdLayout, EncodeMap, MapLayout;
    match (ty, value)
    case (TTuple(fields), VTuple(values)) =>
      if |fields| == |values| {
        StoreFieldsIsLayout(st, fields, values);
      }
    case (TOptional(item), VOptional(Some(v))) =>
      var st' := st.Then(OfBits([true]));
      if st'.Fits() {
        StoreBodyIsLayout(st', item, v);
      }
      if Layout(item, v).Some? {
        ThenAssociates(st, OfBits([true]), Layout(item, v).value);
      }
    case (TMap(key, valueTy, keyBits), VMap(entries)) =>
      EncodeMapIsLayout(key, valueTy, keyBits, entries);
    case _ =>
  }

  lemma {:induction false} StoreFieldsIsLayout(st: Chunk, fields: seq<AbiParameter>, values: seq<AbiValue>)
    requires st.Fits() && |fields| == |values|
    ensures StoreFields(st, fields, values).Ok?
       <==> FieldsLayout(fields, values).Some? && st.Then(FieldsLayout(fields, values).value).Fits()
    ensures StoreFields(st, fields, values).Ok?
        ==> StoreFields(st, fields, values).value == st.Then(FieldsLayout(fields, values).value)
    decreases fields, 0
  {
    hide StoreBody, Layout;
    if fields == [] {
      ThenEmpty(st);
    } else {
      StoreBodyIsLayout(st, fields[0].ty, values[0]);
      var first := Layout(fields[0].ty, values[0]);
      if first.Some? {
        if st.Then(first.value).Fits() {
          StoreFieldsIsLayout(st.Then(first.value), fields[1..], values[1..]);
        }
        var rest := FieldsLayout(fields[1..], values[1..]);
        if rest.Some? {
          ThenAssociates(st, first.value, rest.value);
        }
      }
    }
  }

  lemma ValueCellIsLayout(valueTy: AbiType, value: AbiValue)
    ensures EncodeValueCell(valueTy, value).Ok? <==> ValueLayout(valueTy, value).Some?
    ensures EncodeValueCell(valueTy, value).Ok? ==>
      EncodeValueCell(valueTy, value).value == ValueLayout(valueTy, value).value
    decreases valueTy, 1
  {
    hide StoreBody, Layout;
    StoreBodyIsLayout(EMPTY, valueTy, value);
    if Layout(valueTy, value).Some? {
      ThenEmpty(Layout(valueTy, value).value);
    }
  }

  /** The insertion loop: it fails on a duplicate exactly when all entries encode and two keys coincide. */
  lemma {:induction false} EncodeEntriesIsInsertAll(
    keyTy: AbiType, valueTy: AbiType, keyBits: u16, entries: seq<MapEntry>, d: Dict)
    ensures var items := Items(keyTy, valueTy, keyBits, entries);
      var r := EncodeEntries(keyTy, valueTy, keyBits, entries, d);
      && (r.Ok? <==> items.Some? && DistinctKeys(items.value) && Disjoint(d, items.value))
      && (r.Ok? ==> r.value == InsertAll(d, items.value))
      && (items.Some? && r.Err? ==> r.error.DuplicateMapKey?)
    decreases valueTy, 2, |entries|
  {
    hide KeyToBits, EncodeValueCell, ValueLayout, Insert, Contains;
    if entries != [] {
      var key := KeyToBits(keyTy, entries[0].key, keyBits);
      ValueCellIsLayout(valueTy, entries[0].value);
      var cell := ValueLayout(valueTy, entries[0].value);
      if key.Ok? && cell.Some? {
        var d' := Insert(d, key.value, cell.value);
        EncodeEntriesIsInsertAll(keyTy, valueTy, keyBits, entries[1..], d');
        var rest := Items(keyTy, valueTy, keyBits, entries[1..]);
        if rest.Some? {
          InsertKeys(d, key.value, cell.value);
          ConsDistinct(d, d', Item(key.value, cell.value), rest.value);
        } else {
          assert EncodeEntries(keyTy, valueTy, keyBits, entries, d).Err?;
        }
      }
    }
  }

  lemma ConsDistinct<V>(d: seq<Item<V>>, d': seq<Item<V>>, first: Item<V>, rest: seq<Item<V>>)
    requires forall k :: Contains(d', k) <==> k == first.key || Contains(d, k)
    ensures var items := [first] + rest;
      (DistinctKeys(items) && Disjoint(d, items))
      <==> (!Contains(d, first.key) && DistinctKeys(rest) && Disjoint(d', rest))
  {
    hide Contains;
    var items := [first] + rest;
    assert forall i :: 0 <= i < |rest| ==> items[i + 1] == rest[i];
    assert items[0] == first;
    if !Contains(d, first.key) && DistinctKeys(rest) && Disjoint(d', rest) {
      forall i, j | 0 <= i < j < |items| ensures items[i].key != items[j].key {
        assert items[j] == rest[j - 1];
        if i > 0 {
          assert items[i] == rest[i - 1];
        }
      }
      forall i | 0 <= i < |items| ensures !Contains(d, items[i].key) {
        if i > 0 {
          assert items[i] == rest[i - 1];
        }
      }
    }
    if DistinctKeys(items) && Disjoint(d, items) {
      forall i | 0 <= i < |rest| ensures !Contains(d', rest[i].key) {
        assert items[0].key != items[i + 1].key;
        assert !Contains(d, items[i + 1].key);
      }
      forall i, j | 0 <= i < j < |rest| ensures rest[i].key != rest[j].key {
        assert items[i + 1].key != items[j + 1].key;
      }
    }
  }

  lemma EncodeMapIsLayout(keyTy: AbiType, valueTy: AbiType, explicitBits: Option<u16>, entries: seq<MapEntry>)
    ensures EncodeMap(keyTy, valueTy, explicitBits, entries).Ok? <==>
      MapLayout(keyTy, valueTy, explicitBits, entries).Some?
    ensures EncodeMap(keyTy, valueTy, explicitBits, entries).Ok? ==>
      EncodeMap(keyTy, valueTy, explicitBits, entries).value == MapLayout(keyTy, valueTy, explicitBits, entries).value
    decreases valueTy, 3
  {
    hide EncodeEntries, Items, DictCell, InsertAll;
    var keyBits := MapKeyBits(keyTy, explicitBits);
    if keyBits.Ok? {
      EncodeEntriesIsInsertAll(keyTy, valueTy, keyBits.value, entries, []);
    }
  }

  // ----- Capacity -----

  /** The inline width of a value: its parts added up. */
  function Width(ty: AbiType, value: AbiValue): nat
    decreases ty, 0
  {
    match (ty, value)
    case (TInt(bits), _) => bits
    case (TUint(bits), _) => bits
    case (TBool, _) => 1
    case (TAddress, _) => 267
    case (TTuple(fields), VTuple(values)) => FieldsWidth(fields, values)
    case (TOptional(item), VOptional(Some(v))) => 1 + Width(item, v)
    case (TOptional(_), _) => 1
    case _ => 0
  }

  function FieldsWidth(fields: seq<AbiParameter>, values: seq<AbiValue>): nat
    decreases fields, 0
  {
    if fields == [] || values == [] then 0
    else Width(fields[0].ty, values[0]) + FieldsWidth(fields[1..], values[1..])
  }

  function RefCount(ty: AbiType, value: AbiValue): nat
    decreases ty, 0
  {
    match (ty, value)
    case (TTuple(fields), VTuple(values)) => FieldsRefCount(fields, values)
    case (TOptional(item), VOptional(Some(v))) => RefCount(item, v)
    case (TBytes, _) => 1
    case (TString, _) => 1
    case (TCell, _) => 1
    case (TSlice, _) => 1
    case (TMap(_, _, _), _) => 1
    case _ => 0
  }

  function FieldsRefCount(fields: seq<AbiParameter>, values: seq<AbiValue>): nat
    decreases fields, 0
  {
    if fields == [] || values == [] then 0
    else RefCount(fields[0].ty, values[0]) + FieldsRefCount(fields[1..], values[1..])
  }

  lemma {:induction false} LayoutSize(ty: AbiType, value: AbiValue)
    requires Layout(ty, value).Some?
    ensures |Layout(ty, value).value.bits| == Width(ty, value)
    ensures |Layout(ty, value).value.refs| == RefCount(ty, value)
    decreases ty, 0
  {
    hide ToBits, SignedBits, SnakeCell, StdLayout, MapLayout;
    match (ty, value)
    case (TTuple(fields), VTuple(values)) => FieldsLayoutSize(fields, values);
    case (TOptional(item), VOptional(Some(v))) => LayoutSize(item, v);
    case _ =>
  }

  lemma {:induction false} FieldsLayoutSize(fields: seq<AbiParameter>, values: seq<AbiValue>)
    requires |fields| == |values| && FieldsLayout(fields, values).Some?
    ensures |FieldsLayout(fields, values).value.bits| == FieldsWidth(fields, values)
    ensures |FieldsLayout(fields, values).value.refs| == FieldsRefCount(fields, values)
    decreases fields, 0
  {
    hide Layout, Width, RefCount;
    if fields != [] {
      LayoutSize(fields[0].ty, values[0]);
      FieldsLayoutSize(fields[1..], values[1..]);
    }
  }

  /** Every component encodes when given a body to itself. */
  ghost predicate EachEncodes(fields: seq<AbiParameter>, values: seq<AbiValue>)
    requires |fields| == |values|
  {
    forall i :: 0 <= i < |fields| ==> Layout(fields[i].ty, values[i]).Some?
  }

  lemma {:induction false} FieldsLayoutIff(fields: seq<AbiParameter>, values: seq<AbiValue>)
    requires |fields| == |values|
    ensures FieldsLayout(fields, values).Some? <==> EachEncodes(fields, values)
  {
    hide Layout;
    if fields != [] {
      FieldsLayoutIff(fields[1..], values[1..]);
      if EachEncodes(fields[1..], values[1..]) && Layout(fields[0].ty, values[0]).Some? {
        forall i | 0 <= i < |fields| ensures Layout(fields[i].ty, values[i]).Some? {
          assert i > 0 ==> fields[i] == fields[1..][i - 1] && values[i] == values[1..][i - 1];
        }
      }
      if EachEncodes(fields, values) {
        forall i | 0 <= i < |fields[1..]| ensures Layout(fields[1..][i].ty, values[1..][i]).Some? {
          assert fields[1..][i] == fields[i + 1] && values[1..][i] == values[i + 1];
        }
      }
    }
  }

  /** Components encode into one cell exactly when each encodes and the sums of their sizes stay within a cell. */
  lemma CapacityIff(fields: seq<AbiParameter>, values: seq<AbiValue>)
    requires |fields| == |values|
    ensures StoreFields(EMPTY, fields, values).Ok? <==>
      && EachEncodes(fields, values)
      && FieldsWidth(fields, values) <= MAX_CELL_BITS
      && FieldsRefCount(fields, values) <= MAX_CELL_REFS
  {
    hide FieldsLayout, StoreFields, EachEncodes, FieldsWidth, FieldsRefCount;
    StoreFieldsIsLayout(EMPTY, fields, values);
    FieldsLayoutIff(fields, values);
    if FieldsLayout(fields, values).Some? {
      ThenEmpty(FieldsLayout(fields, values).value);
      FieldsLayoutSize(fields, values);
    }
  }
}
