/**
 * Encoding a decoded body. Every accepted body holds an encodable value in normal form; encoding it again gives the
 * same bits and references exactly when the byte chains and dictionaries in the body were written canonically.
 */
module AbiReencode {
  import opened AbiCodec
  import opened AbiLayout
  import opened AbiMaps
  import opened AbiModel
  import opened AbiRoundTrip
  import opened Addresses
  import opened Bits
  import opened Cells
  import opened Dictionary
  import opened Snake
  import opened SortedMap
  import opened Wrappers

  // ----- Canonical bodies -----

  predicate CanonicalBody(c: Chunk, ty: AbiType)
    requires LoadBody(c, ty).Ok?
    decreases ty, 0
  {
    match ty
    case TBytes => CanonicalSnake(c.refs[0])
    case TString => CanonicalSnake(c.refs[0])
    case TTuple(fields) => CanonicalFields(c, fields)
    case TOptional(item) => c.bits[0] ==> CanonicalBody(TakeBit(c).value.1, item)
    case TMap(key, value, keyBits) => CanonicalMap(key, value, keyBits, c.refs[0])
    case _ => true
  }

  predicate CanonicalFields(c: Chunk, fields: seq<AbiParameter>)
    requires LoadFields(c, fields).Ok?
    decreases fields, 0
  {
    fields == []
    || (CanonicalBody(c, fields[0].ty) && CanonicalFields(LoadBody(c, fields[0].ty).value.1, fields[1..]))
  }

  predicate CanonicalValues(keyTy: AbiType, valueTy: AbiType, d: Dict)
    requires DecodeEntries(keyTy, valueTy, d).Ok?
    decreases valueTy, 2, |d|
  {
    d == [] || (CanonicalValueCell(valueTy, d[0].value) && CanonicalValues(keyTy, valueTy, d[1..]))
  }

  predicate CanonicalValueCell(valueTy: AbiType, cell: Cell)
    requires DecodeValueCell(valueTy, cell).Ok?
    decreases valueTy, 1
  {
    CanonicalBody(Contents(cell), valueTy)
  }

  predicate CanonicalMap(keyTy: AbiType, valueTy: AbiType, explicitBits: Option<u16>, cell: Cell)
    requires DecodeMap(keyTy, valueTy, explicitBits, cell).Ok?
    decreases valueTy, 3
  {
    var keyBits := MapKeyBits(keyTy, explicitBits).value;
    CanonicalDict(Contents(cell), keyBits) && CanonicalValues(keyTy, valueTy, CellDict(cell, keyBits).value)
  }

  // ----- What is left after a load -----

  ghost predicate Suffix(rest: Chunk, c: Chunk) {
    && |rest.bits| <= |c.bits| && rest.bits == c.bits[|c.bits| - |rest.bits|..]
    && |rest.refs| <= |c.refs| && rest.refs == c.refs[|c.refs| - |rest.refs|..]
  }

  /** `chunk` takes as much room as what was read between `c` and `rest`. */
  ghost predicate SameSize(chunk: Chunk, c: Chunk, rest: Chunk) {
    |chunk.bits| + |rest.bits| == |c.bits| && |chunk.refs| + |rest.refs| == |c.refs|
  }

  lemma ReadIsSuffix(chunk: Chunk, rest: Chunk)
    ensures Suffix(rest, chunk.Then(rest)) && SameSize(chunk, chunk.Then(rest), rest)
  {
  }

  lemma SuffixTransitive(a: Chunk, b: Chunk, c: Chunk)
    requires Suffix(a, b) && Suffix(b, c)
    ensures Suffix(a, c)
  {
  }

  lemma SuffixSplit(first: Chunk, tail: Chunk, middle: Chunk, c: Chunk)
    requires Suffix(middle, c) && SameSize(first, c, middle)
    ensures first.Then(tail) == c <==> tail == middle && first.Then(middle) == c
  {
    if first.Then(tail) == c {
      assert c.bits[|first.bits|..] == tail.bits && c.refs[|first.refs|..] == tail.refs;
    }
  }

  lemma RefDiffers(a: Cell, b: Cell, rest: Chunk)
    ensures OfRef(a).Then(rest) == OfRef(b).Then(rest) <==> a == b
  {
    assert OfRef(a).Then(rest).refs[0] == a && OfRef(b).Then(rest).refs[0] == b;
  }

  // ----- The law -----

  /** What re-encoding a loaded value gives. */
  ghost predicate Reencodes(c: Chunk, rest: Chunk, layout: Option<Chunk>, canonical: bool) {
    && layout.Some?
    && Suffix(rest, c)
    && SameSize(layout.value, c, rest)
    && (layout.value.Then(rest) == c <==> canonical)
  }

  /** The law, for one type. */
  ghost predicate BodyReencodes(c: Chunk, ty: AbiType)
    requires LoadBody(c, ty).Ok?
  {
    var (v, rest) := LoadBody(c, ty).value;
    Reencodes(c, rest, Layout(ty, v), CanonicalBody(c, ty)) && Normal(ty, v) == v
  }

  lemma ReencodedBits(c: Chunk, ty: AbiType)
    requires (ty.TInt? || ty.TUint? || ty.TBool?) && LoadBody(c, ty).Ok?
    ensures BodyReencodes(c, ty)
  {
    hide ToBits, SignedBits, FromBits, SignedValue, Pow2, Reencodes;
    var (v, rest) := LoadBody(c, ty).value;
    match ty
    case TInt(bits) =>
      TakenInt(c, bits);
      ExactRead(OfBits(SignedBits(v.int_, bits)), rest);
    case TUint(bits) =>
      TakenUint(c, bits);
      ExactRead(OfBits(ToBits(v.uint, bits)), rest);
    case TBool =>
      TakenBit(c);
      ExactRead(OfBits([v.bool_]), rest);
  }

  lemma ReencodedAddress(c: Chunk)
    requires LoadBody(c, TAddress).Ok?
    ensures BodyReencodes(c, TAddress)
  {
    hide StdLayout, IntLoad, IntLayout, Reencodes;
    var (v, rest) := LoadBody(c, TAddress).value;
    IntIsLossless(c);
    ExactRead(StdLayout(v.address), rest);
  }

  lemma ReencodedReference(c: Chunk, ty: AbiType)
    requires (ty.TBytes? || ty.TString? || ty.TCell? || ty.TSlice?) && LoadBody(c, ty).Ok?
    ensures BodyReencodes(c, ty)
  {
    hide SnakeCell, ReadSnake, CanonicalSnake, Reencodes;
    var (v, rest) := LoadBody(c, ty).value;
    TakenRef(c);
    if ty.TBytes? || ty.TString? {
      BytesReencoded(c.refs[0], rest);
    } else {
      ExactRead(OfRef(v.cell), rest);
    }
  }

  lemma {:induction false} ReencodedOptional(c: Chunk, item: AbiType)
    requires LoadBody(c, TOptional(item)).Ok?
    ensures BodyReencodes(c, TOptional(item))
    decreases item, 1
  {
    hide Reencodes, LoadBody, Layout, CanonicalBody, Normal;
    LoadedOptional(c, item);
    TakenBit(c);
    if c.bits[0] {
      var afterBit := TakeBit(c).value.1;
      var (v, rest) := LoadBody(afterBit, item).value;
      ReencodedBody(afterBit, item);
      PresentLayout(item, v);
      OptionalReencoded(c, afterBit, rest, Layout(item, v), CanonicalBody(afterBit, item));
    } else {
      ExactRead(OfBits([false]), TakeBit(c).value.1);
    }
  }

  /** What was read of an optional, present or absent. */
  lemma LoadedOptional(c: Chunk, item: AbiType)
    requires LoadBody(c, TOptional(item)).Ok?
    ensures TakeBit(c).Some? && c.bits[0] == TakeBit(c).value.0
    ensures c.bits[0] ==>
      && LoadBody(TakeBit(c).value.1, item).Ok?
      && LoadBody(c, TOptional(item)).value.0 == VOptional(Some(LoadBody(TakeBit(c).value.1, item).value.0))
      && LoadBody(c, TOptional(item)).value.1 == LoadBody(TakeBit(c).value.1, item).value.1
      && CanonicalBody(c, TOptional(item)) == CanonicalBody(TakeBit(c).value.1, item)
    ensures !c.bits[0] ==>
      && LoadBody(c, TOptional(item)).value == (VOptional(None), TakeBit(c).value.1)
      && CanonicalBody(c, TOptional(item))
      && Layout(TOptional(item), VOptional(None)) == Some(OfBits([false]))
      && Normal(TOptional(item), VOptional(None)) == VOptional(None)
  {
  }

  lemma ReencodedMapReference(c: Chunk, key: AbiType, valueTy: AbiType, keyBits: Option<u16>)
    requires LoadBody(c, TMap(key, valueTy, keyBits)).Ok?
    ensures BodyReencodes(c, TMap(key, valueTy, keyBits))
    decreases valueTy, 4
  {
    hide MapLayout, DecodeMap, CanonicalMap, NormalEntries, Reencodes;
    var (v, rest) := LoadBody(c, TMap(key, valueTy, keyBits)).value;
    TakenRef(c);
    ReencodedMap(key, valueTy, keyBits, c.refs[0]);
    RefReencoded(c.refs[0], MapLayout(key, valueTy, keyBits, v.entries).value, rest);
  }

  lemma ReencodedTuple(c: Chunk, fields: seq<AbiParameter>)
    requires LoadBody(c, TTuple(fields)).Ok?
    ensures BodyReencodes(c, TTuple(fields))
    decreases fields, 1
  {
    hide CanonicalFields, LoadFields, FieldsLayout, NormalFields, Reencodes;
    ReencodedFields(c, fields);
  }

  lemma {:induction false} ReencodedBody(c: Chunk, ty: AbiType)
    requires LoadBody(c, ty).Ok?
    ensures BodyReencodes(c, ty)
    decreases ty, 0
  {
    match ty
    case TTuple(fields) => ReencodedTuple(c, fields);
    case TOptional(item) => ReencodedOptional(c, item);
    case TMap(key, valueTy, keyBits) => ReencodedMapReference(c, key, valueTy, keyBits);
    case TAddress => ReencodedAddress(c);
    case TArray(_) => assert false;
    case TUnknown(_) => assert false;
    case TBytes => ReencodedReference(c, ty);
    case TString => ReencodedReference(c, ty);
    case TCell => ReencodedReference(c, ty);
    case TSlice => ReencodedReference(c, ty);
    case _ => ReencodedBits(c, ty);
  }

  lemma ExactRead(chunk: Chunk, rest: Chunk)
    ensures Reencodes(chunk.Then(rest), rest, Some(chunk), true)
  {
    ReadIsSuffix(chunk, rest);
  }

  lemma RefReencoded(cell: Cell, again: Cell, rest: Chunk)
    ensures Reencodes(OfRef(cell).Then(rest), rest, Some(OfRef(again)), again == cell)
  {
    ReadIsSuffix(OfRef(cell), rest);
    RefDiffers(again, cell, rest);
  }

  lemma BytesReencoded(cell: Cell, rest: Chunk)
    requires ReadBytes(cell).Ok?
    ensures Reencodes(OfRef(cell).Then(rest), rest, Some(OfRef(SnakeCell(ReadBytes(cell).value))), CanonicalSnake(cell))
  {
    hide ReadSnake, SnakeCell, CanonicalSnake, Reencodes;
    ReencodedSnake(cell);
    RefReencoded(cell, SnakeCell(ReadBytes(cell).value), rest);
  }

  lemma OptionalReencoded(c: Chunk, afterBit: Chunk, rest: Chunk, layout: Option<Chunk>, canonical: bool)
    requires c == OfBits([true]).Then(afterBit) && Reencodes(afterBit, rest, layout, canonical)
    ensures layout.Some? && Reencodes(c, rest, Some(OfBits([true]).Then(layout.value)), canonical)
  {
    ReadIsSuffix(OfBits([true]), afterBit);
    SuffixTransitive(rest, afterBit, c);
    ThenAssociates(OfBits([true]), layout.value, rest);
    SuffixSplit(OfBits([true]), layout.value.Then(rest), afterBit, c);
  }

  lemma {:induction false} ReencodedFields(c: Chunk, fields: seq<AbiParameter>)
    requires LoadFields(c, fields).Ok?
    ensures var (vs, rest) := LoadFields(c, fields).value;
      Reencodes(c, rest, FieldsLayout(fields, vs), CanonicalFields(c, fields)) && NormalFields(fields, vs) == vs
    decreases fields, 0
  {
    hide LoadBody, Layout, CanonicalBody, Normal, Reencodes;
    if fields == [] {
      ThenEmpty(c);
      ExactRead(EMPTY, c);
    } else {
      var (v, middle) := LoadBody(c, fields[0].ty).value;
      var (vs, rest) := LoadFields(middle, fields[1..]).value;
      ReencodedBody(c, fields[0].ty);
      ReencodedFields(middle, fields[1..]);
      var all := LoadFields(c, fields).value.0;
      assert all[0] == v && all[1..] == vs;
      SequenceReencoded(c, middle, rest, Layout(fields[0].ty, v), FieldsLayout(fields[1..], vs),
        CanonicalBody(c, fields[0].ty), CanonicalFields(middle, fields[1..]));
      assert FieldsLayout(fields, all)
          == Some(Layout(fields[0].ty, v).value.Then(FieldsLayout(fields[1..], vs).value));
    }
  }

  lemma SequenceReencoded(
    c: Chunk, middle: Chunk, rest: Chunk, first: Option<Chunk>, tail: Option<Chunk>, firstOk: bool, tailOk: bool)
    requires Reencodes(c, middle, first, firstOk) && Reencodes(middle, rest, tail, tailOk)
    ensures first.Some? && tail.Some?
    ensures Reencodes(c, rest, Some(first.value.Then(tail.value)), firstOk && tailOk)
  {
    SuffixTransitive(rest, middle, c);
    ThenAssociates(first.value, tail.value, rest);
    SuffixSplit(first.value, tail.value.Then(rest), middle, c);
  }

  // ----- Maps -----

  lemma KeyWrites(keyTy: AbiType, bits: seq<bool>, keyBits: u16)
    requires IntegerType(keyTy) && WidthOk(keyTy.bits) && keyBits == keyTy.bits && |bits| == keyBits
    requires BitsToKey(keyTy, bits).Ok?
    ensures KeyToBits(keyTy, BitsToKey(keyTy, bits).value, keyBits) == Ok(bits)
  {
    hide ToBits, FromBits, Pow2;
    var c := OfBits(bits);
    assert bits[..|bits|] == bits;
    if keyTy.TInt? {
      SignedValueFits(bits);
    } else {
      FromBitsBound(bits);
      ToFromBits(bits);
    }
  }

  lemma ValueReencoded(valueTy: AbiType, cell: Cell)
    requires DecodeValueCell(valueTy, cell).Ok?
    ensures var v := DecodeValueCell(valueTy, cell).value;
      && ValueLayout(valueTy, v).Some?
      && (ValueLayout(valueTy, v).value == cell <==> CanonicalValueCell(valueTy, cell))
      && Normal(valueTy, v) == v
    decreases valueTy, 1
  {
    hide LoadBody, Layout, CanonicalBody, Normal;
    ReencodedBody(Contents(cell), valueTy);
    var layout := Layout(valueTy, DecodeValueCell(valueTy, cell).value).value;
    ThenEmpty(layout);
    assert layout.Fits();
    assert Contents(cell).ToCell() == cell;
  }

  /** The entries of a decoded dictionary, encoded again one by one. */
  lemma {:induction false} ReencodedEntries(keyTy: AbiType, valueTy: AbiType, keyBits: u16, d: Dict)
    requires IntegerType(keyTy) && WidthOk(keyTy.bits) && keyBits == keyTy.bits && KeysOfLength(d, keyBits)
    requires DecodeEntries(keyTy, valueTy, d).Ok?
    ensures var entries := DecodeEntries(keyTy, valueTy, d).value;
      var items := Items(keyTy, valueTy, keyBits, entries);
      && items.Some? && SameKeys(items.value, d) && |entries| == |d|
      && (items.value == d <==> CanonicalValues(keyTy, valueTy, d))
      && (forall i :: 0 <= i < |entries| ==> Normal(valueTy, entries[i].value) == entries[i].value)
    decreases valueTy, 2, |d|
  {
    hide BitsToKey, KeyToBits, DecodeValueCell, ValueLayout, Normal, CanonicalValueCell;
    if d != [] {
      KeyWrites(keyTy, d[0].key, keyBits);
      ValueReencoded(valueTy, d[0].value);
      ReencodedEntries(keyTy, valueTy, keyBits, d[1..]);
      var rest := DecodeEntries(keyTy, valueTy, d[1..]).value;
      var first := MapEntry(BitsToKey(keyTy, d[0].key).value, DecodeValueCell(valueTy, d[0].value).value);
      assert ([first] + rest)[1..] == rest;
      var cell := ValueLayout(valueTy, first.value).value;
      var tail := Items(keyTy, valueTy, keyBits, rest).value;
      assert Items(keyTy, valueTy, keyBits, [first] + rest) == Some([Item(d[0].key, cell)] + tail);
      ConsSameKeys(d, cell, tail);
    }
  }

  ghost predicate SameKeys(a: Dict, b: Dict) {
    |a| == |b| && forall i :: 0 <= i < |a| ==> a[i].key == b[i].key
  }

  lemma ConsSameKeys(d: Dict, cell: Cell, tail: Dict)
    requires d != [] && SameKeys(tail, d[1..])
    ensures SameKeys([Item(d[0].key, cell)] + tail, d)
    ensures [Item(d[0].key, cell)] + tail == d <==> cell == d[0].value && tail == d[1..]
  {
    var a := [Item(d[0].key, cell)] + tail;
    assert a[0] == Item(d[0].key, cell) && a[1..] == tail;
    assert d == [d[0]] + d[1..];
    assert forall i :: 1 <= i < |d| ==> a[i].key == tail[i - 1].key && d[i] == d[1..][i - 1];
  }

  lemma ReencodedMap(keyTy: AbiType, valueTy: AbiType, explicitBits: Option<u16>, cell: Cell)
    requires DecodeMap(keyTy, valueTy, explicitBits, cell).Ok?
    ensures var entries := DecodeMap(keyTy, valueTy, explicitBits, cell).value;
      && MapLayout(keyTy, valueTy, explicitBits, entries).Some?
      && (MapLayout(keyTy, valueTy, explicitBits, entries).value == cell
          <==> CanonicalMap(keyTy, valueTy, explicitBits, cell))
      && NormalEntries(keyTy, valueTy, entries) == entries
    decreases valueTy, 3
  {
    hide Items, DecodeEntries, CellDict, DictCell, Sorted, CanonicalDict, CanonicalValues, NormalEntries, Normal,
         KeysOfLength, Ascending, SameKeys, KeysAscend, DistinctKeys;
    var keyBits := MapKeyBits(keyTy, explicitBits).value;
    var d := CellDict(cell, keyBits).value;
    CellDictIsValid(cell, keyBits);
    ReencodedEntries(keyTy, valueTy, keyBits, d);
    var entries := DecodeEntries(keyTy, valueTy, d).value;
    var again := Items(keyTy, valueTy, keyBits, entries).value;
    SameKeysValid(again, d, keyBits);
    AscendingIsSorted(again);
    DictCellSucceeds(again, keyBits);
    CellDictReads(again, keyBits);
    ReencodedDictCell(cell, keyBits);
    DecodedEntriesAscend(keyTy, valueTy, keyBits, entries, again);
    AlreadySorted(keyTy, valueTy, keyBits, entries);
  }

  lemma CellDictIsValid(cell: Cell, keyBits: nat)
    requires CellDict(cell, keyBits).Ok?
    ensures ValidDict(CellDict(cell, keyBits).value, keyBits)
  {
    hide LoadDict;
    LoadedDictIsValid(Contents(cell), keyBits);
  }

  lemma SameKeysValid(a: Dict, b: Dict, keyBits: nat)
    requires SameKeys(a, b) && ValidDict(b, keyBits)
    ensures ValidDict(a, keyBits)
  {
    hide LexLess;
  }

  lemma ReencodedDictCell(cell: Cell, keyBits: nat)
    requires CellDict(cell, keyBits).Ok?
    ensures DictCell(CellDict(cell, keyBits).value, keyBits) == Ok(cell) <==> CanonicalDict(Contents(cell), keyBits)
  {
    hide LoadDict, StoreDict, CanonicalDict;
    ReencodedDict(Contents(cell), keyBits);
    var d := CellDict(cell, keyBits).value;
    if StoreDict(d, keyBits).Some? {
      ThenEmpty(StoreDict(d, keyBits).value);
    }
  }

  lemma DecodedEntriesAscend(keyTy: AbiType, valueTy: AbiType, keyBits: u16, entries: seq<MapEntry>, items: Dict)
    requires IntegerType(keyTy) && keyBits == keyTy.bits
    requires Items(keyTy, valueTy, keyBits, entries) == Some(items) && Ascending(items)
    ensures KeysAscend(entries)
    ensures forall i :: 0 <= i < |entries| ==> KeyToBits(keyTy, entries[i].key, keyBits).Ok?
  {
    hide Items, KeyToBits, ValueLayout, LexLess, KeyBelow;
    ItemsAt(keyTy, valueTy, keyBits, entries);
    forall i, j | 0 <= i < j < |entries| ensures KeyBelow(entries[i].key, entries[j].key) {
      KeyOrder(keyTy, entries[i].key, entries[j].key, keyBits);
    }
  }

  // ----- Types whose every body is canonical -----

  /** No byte chain and no dictionary anywhere inside. */
  predicate FixedLayout(ty: AbiType)
    decreases ty, 0
  {
    match ty
    case TBytes => false
    case TString => false
    case TMap(_, _, _) => false
    case TTuple(fields) => FieldsFixedLayout(fields)
    case TOptional(item) => FixedLayout(item)
    case _ => true
  }

  predicate FieldsFixedLayout(fields: seq<AbiParameter>)
    decreases fields, 0
  {
    fields == [] || (FixedLayout(fields[0].ty) && FieldsFixedLayout(fields[1..]))
  }

  lemma {:induction false} FixedLayoutIsCanonical(c: Chunk, ty: AbiType)
    requires LoadBody(c, ty).Ok? && FixedLayout(ty)
    ensures CanonicalBody(c, ty)
    decreases ty, 0
  {
    match ty
    case TTuple(fields) => FixedFieldsAreCanonical(c, fields);
    case TOptional(item) =>
      if c.bits[0] {
        FixedLayoutIsCanonical(TakeBit(c).value.1, item);
      }
    case _ =>
  }

  lemma {:induction false} FixedFieldsAreCanonical(c: Chunk, fields: seq<AbiParameter>)
    requires LoadFields(c, fields).Ok? && FieldsFixedLayout(fields)
    ensures CanonicalFields(c, fields)
    decreases fields, 0
  {
    hide LoadBody, CanonicalBody, FixedLayout;
    if fields != [] {
      FixedLayoutIsCanonical(c, fields[0].ty);
      FixedFieldsAreCanonical(LoadBody(c, fields[0].ty).value.1, fields[1..]);
    }
  }

  // ----- Range checks after a load -----

  /** What a decoder never reports: a width of bits cannot hold a number outside its range. */
  lemma {:induction false} RangeCheckNeverFires(c: Chunk, ty: AbiType)
    ensures LoadBody(c, ty) != Err(IntegerOutOfRange)
    decreases ty, 0
  {
    hide ToBits, SignedBits, FromBits, SignedValue, ReadSnake, IntLoad, DecodeMap, LoadFields, Pow2;
    match ty
    case TInt(bits) =>
      if WidthOk(bits) && TakeInt(c, bits).Some? {
        TakenInt(c, bits);
      }
    case TUint(bits) =>
      if TakeUint(c, bits).Some? {
        TakenUint(c, bits);
      }
    case TTuple(fields) => FieldsRangeCheck(c, fields);
    case TOptional(item) =>
      if TakeBit(c).Some? {
        RangeCheckNeverFires(TakeBit(c).value.1, item);
      }
    case TMap(key, valueTy, keyBits) =>
      if TakeRef(c).Some? {
        MapRangeCheck(key, valueTy, keyBits, TakeRef(c).value.0);
      }
    case _ =>
  }

  lemma {:induction false} FieldsRangeCheck(c: Chunk, fields: seq<AbiParameter>)
    ensures LoadFields(c, fields) != Err(IntegerOutOfRange)
    decreases fields, 0
  {
    hide LoadBody;
    if fields != [] {
      RangeCheckNeverFires(c, fields[0].ty);
      var first := LoadBody(c, fields[0].ty);
      if first.Ok? {
        FieldsRangeCheck(first.value.1, fields[1..]);
      }
    }
  }

  lemma MapRangeCheck(keyTy: AbiType, valueTy: AbiType, explicitBits: Option<u16>, cell: Cell)
    ensures DecodeMap(keyTy, valueTy, explicitBits, cell) != Err(IntegerOutOfRange)
    decreases valueTy, 3
  {
    hide DecodeEntries, LoadDict;
    var keyBits := MapKeyBits(keyTy, explicitBits);
    if keyBits.Ok? && CellDict(cell, keyBits.value).Ok? {
      EntriesRangeCheck(keyTy, valueTy, CellDict(cell, keyBits.value).value);
    }
  }

  lemma {:induction false} EntriesRangeCheck(keyTy: AbiType, valueTy: AbiType, d: Dict)
    ensures DecodeEntries(keyTy, valueTy, d) != Err(IntegerOutOfRange)
    decreases valueTy, 2, |d|
  {
    hide LoadBody;
    if d != [] {
      RangeCheckNeverFires(Contents(d[0].value), valueTy);
      EntriesRangeCheck(keyTy, valueTy, d[1..]);
    }
  }
}
