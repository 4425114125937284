/**
 * Decoding undoes encoding. What comes back is the normal form of the value: the text flags of addresses reset, and the
 * entries of maps in key order, at every depth.
 */
module AbiRoundTrip {
  import opened AbiCodec
  import opened AbiLayout
  import opened AbiModel
  import opened Addresses
  import opened Bits
  import opened Cells
  import opened Dictionary
  import opened Snake
  import opened SortedMap
  import opened Wrappers

  // ----- Normal forms -----

  function Normal(ty: AbiType, value: AbiValue): AbiValue
    decreases ty, 0
  {
    match (ty, value)
    case (TAddress, VAddress(address)) => VAddress(NormalAddress(address))
    case (TTuple(fields), VTuple(values)) => VTuple(NormalFields(fields, values))
    case (TOptional(item), VOptional(Some(v))) => VOptional(Some(Normal(item, v)))
    case (TMap(key, valueTy, _), VMap(entries)) => VMap(NormalEntries(key, valueTy, entries))
    case _ => value
  }

  function NormalFields(fields: seq<AbiParameter>, values: seq<AbiValue>): (r: seq<AbiValue>)
    ensures |r| == |values|
    decreases fields, 0
  {
    if fields == [] || values == [] then values
    else [Normal(fields[0].ty, values[0])] + NormalFields(fields[1..], values[1..])
  }

  function KeyBitsOf(keyTy: AbiType, key: AbiValue): seq<bool> {
    if keyTy.TInt? || keyTy.TUint? then
      match KeyToBits(keyTy, key, keyTy.bits)
      case Ok(bits) => bits
      case Err(_) => []
    else []
  }

  function NormalItems(keyTy: AbiType, valueTy: AbiType, entries: seq<MapEntry>): (r: seq<Item<MapEntry>>)
    ensures |r| == |entries|
    decreases valueTy, 2, |entries|
  {
    if entries == [] then []
    else
      var e := entries[0];
      [Item(KeyBitsOf(keyTy, e.key), MapEntry(e.key, Normal(valueTy, e.value)))]
      + NormalItems(keyTy, valueTy, entries[1..])
  }

  function EntryValues(d: seq<Item<MapEntry>>): (entries: seq<MapEntry>)
    ensures |entries| == |d| && forall i :: 0 <= i < |d| ==> entries[i] == d[i].value
  {
    seq(|d|, i requires 0 <= i < |d| => d[i].value)
  }

  function NormalEntries(keyTy: AbiType, valueTy: AbiType, entries: seq<MapEntry>): seq<MapEntry>
    decreases valueTy, 3
  {
    EntryValues(Sorted(NormalItems(keyTy, valueTy, entries)))
  }

  // ----- Keys -----

  lemma KeyReads(keyTy: AbiType, key: AbiValue, keyBits: u16)
    requires KeyToBits(keyTy, key, keyBits).Ok?
    requires (keyTy.TInt? || keyTy.TUint?) && keyBits == keyTy.bits
    ensures BitsToKey(keyTy, KeyToBits(keyTy, key, keyBits).value) == Ok(key)
    ensures KeyBitsOf(keyTy, key) == KeyToBits(keyTy, key, keyBits).value
  {
    hide ToBits, SignedBits, SignedValue, FromBits;
    var bits := KeyToBits(keyTy, key, keyBits).value;
    ThenEmpty(OfBits(bits));
    if keyTy.TInt? {
      TakeIntThen(key.int_, keyBits, EMPTY);
    } else {
      TakeUintThen(key.uint, keyBits, EMPTY);
    }
  }

  // ----- A dictionary of cells beside the dictionary of what the cells hold -----

  /** `x` is the encoded form of the normal entry `n`. */
  ghost predicate Corresponds(keyTy: AbiType, valueTy: AbiType, keyBits: u16, x: Item<Cell>, n: Item<MapEntry>) {
    && x.key == n.key
    && BitsToKey(keyTy, x.key) == Ok(n.value.key)
    && KeyToBits(keyTy, n.value.key, keyBits) == Ok(x.key)
    && DecodeValueCell(valueTy, x.value) == Ok(n.value.value)
    && ValueLayout(valueTy, n.value.value) == Some(x.value)
  }

  ghost predicate AllCorrespond(keyTy: AbiType, valueTy: AbiType, keyBits: u16, d: Dict, n: seq<Item<MapEntry>>) {
    |d| == |n| && forall i :: 0 <= i < |d| ==> Corresponds(keyTy, valueTy, keyBits, d[i], n[i])
  }

  lemma SameKey(keyTy: AbiType, valueTy: AbiType, keyBits: u16, x: Item<Cell>, n: Item<MapEntry>)
    requires Corresponds(keyTy, valueTy, keyBits, x, n)
    ensures x.key == n.key
  {
  }

  lemma ConsCorresponds(
    keyTy: AbiType, valueTy: AbiType, keyBits: u16, x: Item<Cell>, y: Item<MapEntry>, d: Dict, n: seq<Item<MapEntry>>)
    requires Corresponds(keyTy, valueTy, keyBits, x, y) && AllCorrespond(keyTy, valueTy, keyBits, d, n)
    ensures AllCorrespond(keyTy, valueTy, keyBits, [x] + d, [y] + n)
  {
    hide Corresponds;
  }

  lemma SplitCorresponds(keyTy: AbiType, valueTy: AbiType, keyBits: u16, d: Dict, n: seq<Item<MapEntry>>)
    requires AllCorrespond(keyTy, valueTy, keyBits, d, n)
    ensures d != [] <==> n != []
    ensures d != [] ==>
      && Corresponds(keyTy, valueTy, keyBits, d[0], n[0]) && d[0].key == n[0].key
      && AllCorrespond(keyTy, valueTy, keyBits, d[1..], n[1..])
  {
    hide Corresponds;
    if d != [] {
      SameKey(keyTy, valueTy, keyBits, d[0], n[0]);
    }
  }

  lemma {:induction false} InsertCorresponds(
    keyTy: AbiType, valueTy: AbiType, keyBits: u16, d: Dict, n: seq<Item<MapEntry>>, x: Item<Cell>, y: Item<MapEntry>)
    requires AllCorrespond(keyTy, valueTy, keyBits, d, n) && Corresponds(keyTy, valueTy, keyBits, x, y)
    ensures AllCorrespond(keyTy, valueTy, keyBits, Insert(d, x.key, x.value), Insert(n, y.key, y.value))
    decreases |d|
  {
    hide Corresponds, AllCorrespond, LexLess;
    SameKey(keyTy, valueTy, keyBits, x, y);
    SplitCorresponds(keyTy, valueTy, keyBits, d, n);
    if d == [] || LexLess(x.key, d[0].key) {
      ConsCorresponds(keyTy, valueTy, keyBits, x, y, d, n);
    } else if x.key == d[0].key {
      ConsCorresponds(keyTy, valueTy, keyBits, x, y, d[1..], n[1..]);
    } else {
      InsertCorresponds(keyTy, valueTy, keyBits, d[1..], n[1..], x, y);
      ConsCorresponds(keyTy, valueTy, keyBits, d[0], n[0],
        Insert(d[1..], x.key, x.value), Insert(n[1..], y.key, y.value));
    }
  }

  lemma {:induction false} InsertAllCorresponds(
    keyTy: AbiType, valueTy: AbiType, keyBits: u16, d: Dict, n: seq<Item<MapEntry>>, xs: Dict, ys: seq<Item<MapEntry>>)
    requires AllCorrespond(keyTy, valueTy, keyBits, d, n) && AllCorrespond(keyTy, valueTy, keyBits, xs, ys)
    ensures AllCorrespond(keyTy, valueTy, keyBits, InsertAll(d, xs), InsertAll(n, ys))
    decreases |xs|
  {
    hide Corresponds;
    if xs != [] {
      InsertCorresponds(keyTy, valueTy, keyBits, d, n, xs[0], ys[0]);
      InsertAllCorresponds(keyTy, valueTy, keyBits,
        Insert(d, xs[0].key, xs[0].value), Insert(n, ys[0].key, ys[0].value), xs[1..], ys[1..]);
    }
  }

  lemma DecodeStep(keyTy: AbiType, valueTy: AbiType, keyBits: u16, d: Dict, n: seq<Item<MapEntry>>)
    requires d != [] && n != [] && Corresponds(keyTy, valueTy, keyBits, d[0], n[0])
    requires DecodeEntries(keyTy, valueTy, d[1..]) == Ok(EntryValues(n[1..]))
    ensures DecodeEntries(keyTy, valueTy, d) == Ok(EntryValues(n))
  {
    hide BitsToKey, DecodeValueCell, EntryValues;
    EntryValuesCons(n);
  }

  lemma ItemsStep(keyTy: AbiType, valueTy: AbiType, keyBits: u16, d: Dict, n: seq<Item<MapEntry>>)
    requires d != [] && n != [] && Corresponds(keyTy, valueTy, keyBits, d[0], n[0])
    requires Items(keyTy, valueTy, keyBits, EntryValues(n[1..])) == Some(d[1..])
    ensures Items(keyTy, valueTy, keyBits, EntryValues(n)) == Some(d)
  {
    hide KeyToBits, ValueLayout, EntryValues, BitsToKey, DecodeValueCell;
    EntryValuesCons(n);
    assert d == [Item(d[0].key, d[0].value)] + d[1..];
  }

  lemma NoEntries(keyTy: AbiType, valueTy: AbiType, keyBits: u16)
    ensures EntryValues([]) == []
    ensures DecodeEntries(keyTy, valueTy, []) == Ok(EntryValues([]))
    ensures Items(keyTy, valueTy, keyBits, EntryValues([])) == Some([])
  {
  }

  /** Corresponding dictionaries decode and encode into each other. */
  lemma {:induction false} CorrespondingDecodes(
    keyTy: AbiType, valueTy: AbiType, keyBits: u16, d: Dict, n: seq<Item<MapEntry>>)
    requires AllCorrespond(keyTy, valueTy, keyBits, d, n)
    ensures DecodeEntries(keyTy, valueTy, d) == Ok(EntryValues(n))
    ensures Items(keyTy, valueTy, keyBits, EntryValues(n)) == Some(d)
    decreases |d|
  {
    hide *;
    SplitCorresponds(keyTy, valueTy, keyBits, d, n);
    if d != [] {
      CorrespondingDecodes(keyTy, valueTy, keyBits, d[1..], n[1..]);
      DecodeStep(keyTy, valueTy, keyBits, d, n);
      ItemsStep(keyTy, valueTy, keyBits, d, n);
    } else {
      NoEntries(keyTy, valueTy, keyBits);
    }
  }

  lemma EntryValuesCons(n: seq<Item<MapEntry>>)
    requires n != []
    ensures EntryValues(n) == [MapEntry(n[0].value.key, n[0].value.value)] + EntryValues(n[1..])
    ensures EntryValues(n)[0] == n[0].value && EntryValues(n)[1..] == EntryValues(n[1..])
  {
  }

  // ----- The round trip -----

  lemma {:induction false} BodyReads(ty: AbiType, value: AbiValue, rest: Chunk)
    requires Layout(ty, value).Some?
    ensures LoadBody(Layout(ty, value).value.Then(rest), ty) == Ok((Normal(ty, value), rest))
    ensures Layout(ty, Normal(ty, value)) == Layout(ty, value)
    decreases ty, 0
  {
    hide ToBits, SignedBits, FromBits, SignedValue, SnakeCell, ReadSnake, StdLayout, IntLoad, MapLayout, DecodeMap,
         NormalEntries, FieldsLayout, LoadFields, NormalFields, Pow2;
    match (ty, value)
    case (TInt(bits), VInt(v)) => TakeIntThen(v, bits, rest);
    case (TUint(bits), VUint(v)) => TakeUintThen(v, bits, rest);
    case (TBool, VBool(v)) => TakeBitThen(v, rest);
    case (TBytes, VBytes(bytes)) => BytesRead(bytes, rest);
    case (TString, VString(utf8)) => BytesRead(utf8, rest);
    case (TAddress, VAddress(address)) => AddressReads(address, rest);
    case (TCell, VCell(cell)) => TakeRefThen(cell, rest);
    case (TSlice, VSlice(cell)) => TakeRefThen(cell, rest);
    case (TTuple(fields), VTuple(values)) => FieldsRead(fields, values, rest);
    case (TOptional(_), VOptional(None)) => TakeBitThen(false, rest);
    case (TOptional(item), VOptional(Some(v))) =>
      BodyReads(item, v, rest);
      OptionalReads(item, v, rest);
    case (TMap(key, valueTy, keyBits), VMap(entries)) =>
      TakeRefThen(MapLayout(key, valueTy, keyBits, entries).value, rest);
      MapReads(key, valueTy, keyBits, entries);
  }

  lemma PresentLayout(item: AbiType, v: AbiValue)
    ensures Layout(TOptional(item), VOptional(Some(v))) == match Layout(item, v)
      case Some(chunk) => Some(OfBits([true]).Then(chunk))
      case None => None
    ensures Normal(TOptional(item), VOptional(Some(v))) == VOptional(Some(Normal(item, v)))
  {
  }

  lemma PresentLoad(c: Chunk, item: AbiType)
    requires TakeBit(c).Some? && TakeBit(c).value.0
    ensures LoadBody(c, TOptional(item)) == match LoadBody(TakeBit(c).value.1, item)
      case Ok((v, rest)) => Ok((VOptional(Some(v)), rest))
      case Err(e) => Err(e)
  {
  }

  /** The bit in front of a present optional. */
  lemma OptionalReads(item: AbiType, v: AbiValue, rest: Chunk)
    requires Layout(item, v).Some?
    requires LoadBody(Layout(item, v).value.Then(rest), item) == Ok((Normal(item, v), rest))
    requires Layout(item, Normal(item, v)) == Layout(item, v)
    ensures var ty, value := TOptional(item), VOptional(Some(v));
      && Layout(ty, value).Some?
      && LoadBody(Layout(ty, value).value.Then(rest), ty) == Ok((Normal(ty, value), rest))
      && Layout(ty, Normal(ty, value)) == Layout(ty, value)
  {
    hide Layout, LoadBody, Normal;
    var chunk := Layout(item, v).value;
    PresentLayout(item, v);
    PresentLayout(item, Normal(item, v));
    ThenAssociates(OfBits([true]), chunk, rest);
    TakeBitThen(true, chunk.Then(rest));
    PresentLoad(OfBits([true]).Then(chunk.Then(rest)), item);
  }

  lemma BytesRead(bytes: seq<byte>, rest: Chunk)
    ensures TakeRef(OfRef(SnakeCell(bytes)).Then(rest)) == Some((SnakeCell(bytes), rest))
    ensures ReadBytes(SnakeCell(bytes)) == Ok(bytes)
  {
    hide SnakeChunk, ReadSnake;
    TakeRefThen(SnakeCell(bytes), rest);
    SnakeRoundTrip(SNAKE_CELL_BYTES, bytes);
  }

  lemma AddressReads(address: Address, rest: Chunk)
    ensures IntLoad(StdLayout(address).Then(rest)) == Some((Std(None, NormalAddress(address)), rest))
    ensures StdLayout(NormalAddress(address)) == StdLayout(address)
  {
    IntReads(Std(None, address), rest);
  }

  lemma {:induction false} FieldsRead(fields: seq<AbiParameter>, values: seq<AbiValue>, rest: Chunk)
    requires |fields| == |values| && FieldsLayout(fields, values).Some?
    ensures LoadFields(FieldsLayout(fields, values).value.Then(rest), fields)
         == Ok((NormalFields(fields, values), rest))
    ensures FieldsLayout(fields, NormalFields(fields, values)) == FieldsLayout(fields, values)
    decreases fields, 0
  {
    hide Layout, LoadBody, Normal;
    if fields == [] {
      ThenEmpty(rest);
    } else {
      var first := Layout(fields[0].ty, values[0]).value;
      var tail := FieldsLayout(fields[1..], values[1..]).value;
      ThenAssociates(first, tail, rest);
      BodyReads(fields[0].ty, values[0], tail.Then(rest));
      FieldsRead(fields[1..], values[1..], rest);
      var normal := NormalFields(fields, values);
      assert normal[0] == Normal(fields[0].ty, values[0]);
      assert normal[1..] == NormalFields(fields[1..], values[1..]);
    }
  }

  lemma ValueReads(valueTy: AbiType, value: AbiValue)
    requires ValueLayout(valueTy, value).Some?
    ensures DecodeValueCell(valueTy, ValueLayout(valueTy, value).value) == Ok(Normal(valueTy, value))
    ensures ValueLayout(valueTy, Normal(valueTy, value)) == ValueLayout(valueTy, value)
    decreases valueTy, 1
  {
    hide Layout, LoadBody, Normal;
    var chunk := Layout(valueTy, value).value;
    BodyReads(valueTy, value, EMPTY);
    ThenEmpty(chunk);
    assert Contents(chunk.ToCell()) == chunk;
  }

  lemma NoneCorrespond(keyTy: AbiType, valueTy: AbiType, keyBits: u16)
    ensures AllCorrespond(keyTy, valueTy, keyBits, [], [])
  {
  }

  lemma EntryCorresponds(keyTy: AbiType, valueTy: AbiType, keyBits: u16, e: MapEntry)
    requires (keyTy.TInt? || keyTy.TUint?) && keyBits == keyTy.bits
    requires KeyToBits(keyTy, e.key, keyBits).Ok? && ValueLayout(valueTy, e.value).Some?
    ensures Corresponds(keyTy, valueTy, keyBits,
      Item(KeyToBits(keyTy, e.key, keyBits).value, ValueLayout(valueTy, e.value).value),
      Item(KeyBitsOf(keyTy, e.key), MapEntry(e.key, Normal(valueTy, e.value))))
    decreases valueTy, 2
  {
    hide KeyToBits, BitsToKey, DecodeValueCell, ValueLayout, Normal, KeyBitsOf;
    KeyReads(keyTy, e.key, keyBits);
    ValueReads(valueTy, e.value);
  }

  /** Each entry corresponds to its own encoding. */
  lemma {:induction false} ItemsCorrespond(keyTy: AbiType, valueTy: AbiType, keyBits: u16, entries: seq<MapEntry>)
    requires (keyTy.TInt? || keyTy.TUint?) && keyBits == keyTy.bits
    requires Items(keyTy, valueTy, keyBits, entries).Some?
    ensures AllCorrespond(keyTy, valueTy, keyBits,
      Items(keyTy, valueTy, keyBits, entries).value, NormalItems(keyTy, valueTy, entries))
    decreases valueTy, 3, |entries|
  {
    hide KeyToBits, BitsToKey, DecodeValueCell, ValueLayout, Normal, KeyBitsOf, Corresponds, AllCorrespond;
    if entries == [] {
      NoneCorrespond(keyTy, valueTy, keyBits);
    } else {
      var e := entries[0];
      EntryCorresponds(keyTy, valueTy, keyBits, e);
      ItemsCorrespond(keyTy, valueTy, keyBits, entries[1..]);
      ConsCorresponds(keyTy, valueTy, keyBits,
        Item(KeyToBits(keyTy, e.key, keyBits).value, ValueLayout(valueTy, e.value).value),
        Item(KeyBitsOf(keyTy, e.key), MapEntry(e.key, Normal(valueTy, e.value))),
        Items(keyTy, valueTy, keyBits, entries[1..]).value, NormalItems(keyTy, valueTy, entries[1..]));
    }
  }

  /** The sorted entries of an encodable map, as cells and as values. */
  lemma SortedCorrespond(keyTy: AbiType, valueTy: AbiType, keyBits: u16, entries: seq<MapEntry>)
    requires (keyTy.TInt? || keyTy.TUint?) && keyBits == keyTy.bits
    requires Items(keyTy, valueTy, keyBits, entries).Some?
    ensures AllCorrespond(keyTy, valueTy, keyBits,
      Sorted(Items(keyTy, valueTy, keyBits, entries).value), Sorted(NormalItems(keyTy, valueTy, entries)))
    ensures ValidDict(Sorted(Items(keyTy, valueTy, keyBits, entries).value), keyBits)
    decreases valueTy, 4, 0
  {
    hide Items, NormalItems, Corresponds;
    ItemsCorrespond(keyTy, valueTy, keyBits, entries);
    ItemLengths(keyTy, valueTy, keyBits, entries);
    var items := Items(keyTy, valueTy, keyBits, entries).value;
    InsertAllCorresponds(keyTy, valueTy, keyBits, [], [], items, NormalItems(keyTy, valueTy, entries));
    InsertAllValid([], items, keyBits);
  }

  lemma CellDictReads(d: Dict, keyBits: nat)
    requires ValidDict(d, keyBits) && DictCell(d, keyBits).Ok?
    ensures CellDict(DictCell(d, keyBits).value, keyBits) == Ok(d)
  {
    hide StoreDict, LoadDict;
    var chunk := StoreDict(d, keyBits).value;
    DictRoundTrip(d, keyBits, EMPTY);
    ThenEmpty(chunk);
    assert Contents(chunk.ToCell()) == chunk;
  }

  lemma MapReads(keyTy: AbiType, valueTy: AbiType, explicitBits: Option<u16>, entries: seq<MapEntry>)
    requires MapLayout(keyTy, valueTy, explicitBits, entries).Some?
    ensures DecodeMap(keyTy, valueTy, explicitBits, MapLayout(keyTy, valueTy, explicitBits, entries).value)
         == Ok(NormalEntries(keyTy, valueTy, entries))
    ensures MapLayout(keyTy, valueTy, explicitBits, NormalEntries(keyTy, valueTy, entries))
         == MapLayout(keyTy, valueTy, explicitBits, entries)
    decreases valueTy, 5
  {
    hide Items, NormalItems, Sorted, Corresponds, CellDict, DictCell, DecodeEntries, AllCorrespond, Ascending;
    var keyBits := MapKeyBits(keyTy, explicitBits).value;
    var items := Items(keyTy, valueTy, keyBits, entries).value;
    SortedCorrespond(keyTy, valueTy, keyBits, entries);
    CellDictReads(Sorted(items), keyBits);
    CorrespondingDecodes(keyTy, valueTy, keyBits, Sorted(items), Sorted(NormalItems(keyTy, valueTy, entries)));
    AscendingIsSorted(Sorted(items));
  }

  lemma AscendingIsSorted<V>(d: seq<Item<V>>)
    requires Ascending(d)
    ensures Sorted(d) == d && DistinctKeys(d)
  {
    InsertAllAppends([], d);
    assert [] + d == d;
    forall i, j | 0 <= i < j < |d| ensures d[i].key != d[j].key {
      LexLessTotal(d[i].key, d[j].key);
    }
  }

  lemma {:induction false} InsertAllAppends<V>(d: seq<Item<V>>, items: seq<Item<V>>)
    requires Ascending(d + items)
    ensures InsertAll(d, items) == d + items
    decreases |items|
  {
    if items == [] {
      assert d + [] == d;
    } else {
      var all := d + items;
      forall i | 0 <= i < |d| ensures LexLess(d[i].key, items[0].key) {
        assert all[i] == d[i] && all[|d|] == items[0];
      }
      InsertLast(d, items[0].key, items[0].value);
      assert items[0] == Item(items[0].key, items[0].value);
      assert (d + [items[0]]) + items[1..] == all;
      InsertAllAppends(d + [items[0]], items[1..]);
    }
  }

  // ----- Consequences -----

  /** Two values encode alike exactly when they have one normal form. */
  lemma EncodeAlikeIffSameNormal(ty: AbiType, a: AbiValue, b: AbiValue)
    requires Layout(ty, a).Some? && Layout(ty, b).Some?
    ensures Layout(ty, a) == Layout(ty, b) <==> Normal(ty, a) == Normal(ty, b)
  {
    hide Layout, LoadBody, Normal;
    BodyReads(ty, a, EMPTY);
    BodyReads(ty, b, EMPTY);
  }

  lemma NormalIsIdempotent(ty: AbiType, value: AbiValue)
    requires Layout(ty, value).Some?
    ensures Normal(ty, Normal(ty, value)) == Normal(ty, value)
  {
    hide Layout, LoadBody, Normal;
    BodyReads(ty, value, EMPTY);
    BodyReads(ty, Normal(ty, value), EMPTY);
  }

  /** No body is a prefix of another body of the same type, unless they hold the same value and end together. */
  lemma BodiesArePrefixFree(ty: AbiType, a: AbiValue, b: AbiValue, afterA: Chunk, afterB: Chunk)
    requires Layout(ty, a).Some? && Layout(ty, b).Some?
    requires Layout(ty, a).value.Then(afterA) == Layout(ty, b).value.Then(afterB)
    ensures Normal(ty, a) == Normal(ty, b) && afterA == afterB
  {
    hide Layout, LoadBody, Normal;
    BodyReads(ty, a, afterA);
    BodyReads(ty, b, afterB);
  }
}
